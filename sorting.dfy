/**
 * Python's `sorted(d.items())` on string pairs: tuples compare by their first component and, on a
 * tie, by their second, each with the code-point order of `str`.
 */
module Sorting {
  import opened Text

  /** Python's `p < q` on `(str, str)` tuples. */
  predicate PairBelow(p: (string, string), q: (string, string))
  {
    Below(p.0, q.0) || (p.0 == q.0 && Below(p.1, q.1))
  }

  lemma PairAsymmetric(p: (string, string), q: (string, string))
    ensures !(PairBelow(p, q) && PairBelow(q, p))
  {
    BelowAsymmetric(p.0, q.0);
    BelowAsymmetric(p.1, q.1);
    BelowIrreflexive(p.0);
  }

  lemma PairTransitive(p: (string, string), q: (string, string), r: (string, string))
    requires PairBelow(p, q) && PairBelow(q, r)
    ensures PairBelow(p, r)
  {
    if Below(p.0, q.0) && Below(q.0, r.0) {
      BelowTransitive(p.0, q.0, r.0);
    } else if p.0 == q.0 && q.0 == r.0 {
      BelowTransitive(p.1, q.1, r.1);
    }
  }

  lemma PairTotal(p: (string, string), q: (string, string))
    ensures p == q || PairBelow(p, q) || PairBelow(q, p)
  {
    BelowTotal(p.0, q.0);
    BelowTotal(p.1, q.1);
  }

  /** Ascending: no later pair is below an earlier one. */
  predicate Sorted(s: seq<(string, string)>)
  {
    forall i, j :: 0 <= i < j < |s| ==> !PairBelow(s[j], s[i])
  }

  /** `x` placed before the first pair of `s` that is not below it. */
  function Insert(x: (string, string), s: seq<(string, string)>): seq<(string, string)>
  {
    if s == [] || !PairBelow(s[0], x) then [x] + s else [s[0]] + Insert(x, s[1..])
  }

  /** Inserting adds exactly `x`. */
  lemma {:induction false} InsertPermutes(x: (string, string), s: seq<(string, string)>)
    ensures multiset(Insert(x, s)) == multiset(s) + multiset{x}
  {
    if s != [] && PairBelow(s[0], x) {
      InsertPermutes(x, s[1..]);
      assert s == [s[0]] + s[1..];
    }
  }

  /** Inserting into an ascending sequence keeps it ascending. */
  lemma {:induction false} InsertSorted(x: (string, string), s: seq<(string, string)>)
    requires Sorted(s)
    ensures Sorted(Insert(x, s))
  {
    var r := Insert(x, s);
    if s == [] || !PairBelow(s[0], x) {
      forall j | 0 < j < |r| ensures !PairBelow(r[j], x) {
        assert r[j] == s[j - 1];
        if j > 1 {
          assert !PairBelow(s[j - 1], s[0]);
          PairTotal(x, s[0]);
          if PairBelow(s[j - 1], x) && x != s[0] {
            PairTransitive(s[j - 1], x, s[0]);
          }
        }
      }
    } else {
      var t := Insert(x, s[1..]);
      InsertSorted(x, s[1..]);
      InsertPermutes(x, s[1..]);
      forall j | 0 <= j < |t| ensures !PairBelow(t[j], s[0]) {
        assert t[j] in multiset(t);
        if t[j] == x {
          PairAsymmetric(s[0], x);
        } else {
          assert t[j] in multiset(s[1..]);
          var k :| 0 <= k < |s[1..]| && s[1..][k] == t[j];
          assert s[k + 1] == t[j];
        }
      }
    }
  }

  /** Insertion sort, ordering the items as Python's `sorted` does. */
  function Sort(s: seq<(string, string)>): seq<(string, string)>
  {
    if s == [] then [] else Insert(s[0], Sort(s[1..]))
  }

  /** `sorted` returns its input in ascending order: sorted, and a permutation of it. */
  lemma {:induction false} SortSpec(s: seq<(string, string)>)
    ensures Sorted(Sort(s))
    ensures multiset(Sort(s)) == multiset(s)
  {
    if s != [] {
      SortSpec(s[1..]);
      InsertSorted(s[0], Sort(s[1..]));
      InsertPermutes(s[0], Sort(s[1..]));
      assert s == [s[0]] + s[1..];
    }
  }

  /** The first pair of an ascending sequence is below or equal to every pair in it. */
  lemma SortedHeadsAgree(a: seq<(string, string)>, b: seq<(string, string)>)
    requires Sorted(a) && Sorted(b) && a != [] && b != []
    requires a[0] in multiset(b) && b[0] in multiset(a)
    ensures a[0] == b[0]
  {
    var i :| 0 <= i < |b| && b[i] == a[0];
    var j :| 0 <= j < |a| && a[j] == b[0];
    PairTotal(a[0], b[0]);
  }

  lemma MultisetTails(a: seq<(string, string)>, b: seq<(string, string)>)
    requires a != [] && b != [] && a[0] == b[0] && multiset(a) == multiset(b)
    ensures multiset(a[1..]) == multiset(b[1..])
  {
    assert a == [a[0]] + a[1..];
    assert b == [b[0]] + b[1..];
    forall x ensures multiset(a[1..])[x] == multiset(b[1..])[x] {
      assert multiset(a)[x] == multiset{a[0]}[x] + multiset(a[1..])[x];
      assert multiset(b)[x] == multiset{a[0]}[x] + multiset(b[1..])[x];
    }
  }

  /** A multiset has one ascending arrangement only. */
  lemma {:induction false} SortedUnique(a: seq<(string, string)>, b: seq<(string, string)>)
    requires Sorted(a) && Sorted(b) && multiset(a) == multiset(b)
    ensures a == b
  {
    if a == [] {
      assert |b| == |multiset(b)| == 0;
    } else {
      assert |b| == |multiset(a)| > 0;
      assert a[0] in multiset(b) && b[0] in multiset(a);
      SortedHeadsAgree(a, b);
      MultisetTails(a, b);
      SortedUnique(a[1..], b[1..]);
      assert a == [a[0]] + a[1..] && b == [b[0]] + b[1..];
    }
  }

  /** Sorting forgets the order it was given: permutations sort alike. */
  lemma SortIgnoresOrder(s: seq<(string, string)>, t: seq<(string, string)>)
    requires multiset(s) == multiset(t)
    ensures Sort(s) == Sort(t)
  {
    SortSpec(s);
    SortSpec(t);
    SortedUnique(Sort(s), Sort(t));
  }
}
