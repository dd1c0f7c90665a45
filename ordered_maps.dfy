/**
 * Insertion-ordered mappings from names to values: the shape of an element's attribute
 * dictionary and of the `OrderedDict` values the dictionary conversion builds. Assigning to a
 * name that is already present replaces its value where it stands; a new name goes at the end.
 */
module OrderedMaps {
  import opened Wrappers

  /** The names, in order. */
  function Names<V>(m: seq<(string, V)>): (ns: seq<string>)
    ensures |ns| == |m|
    ensures forall i :: 0 <= i < |m| ==> ns[i] == m[i].0
  {
    seq(|m|, i requires 0 <= i < |m| => m[i].0)
  }

  /** No name occurs twice: the invariant of a Python dictionary. */
  predicate Unique<V>(m: seq<(string, V)>)
  {
    var ns := Names(m);
    forall i, j :: 0 <= i < j < |ns| ==> ns[i] != ns[j]
  }

  /** The value stored under `k`, or None (the first entry with that name). */
  function Get<V>(m: seq<(string, V)>, k: string): (r: Option<V>)
    ensures r.Some? <==> k in Names(m)
  {
    if m == [] then None
    else if m[0].0 == k then Some(m[0].1)
    else
      var r := Get(m[1..], k);
      assert Names(m) == [m[0].0] + Names(m[1..]);
      r
  }

  /** `m[k] = v` on an ordered dictionary. */
  function Put<V>(m: seq<(string, V)>, k: string, v: V): (r: seq<(string, V)>)
    ensures Names(r) == if k in Names(m) then Names(m) else Names(m) + [k]
    ensures Get(r, k) == Some(v)
    ensures forall k' :: k' != k ==> Get(r, k') == Get(m, k')
  {
    if m == [] then [(k, v)]
    else if m[0].0 == k then
      PutHere(m, k, v);
      [(k, v)] + m[1..]
    else
      var t := Put(m[1..], k, v);
      PutFurther(m, k, v, t);
      [m[0]] + t
  }

  /** Assigning to the first name replaces its value in place. */
  lemma PutHere<V>(m: seq<(string, V)>, k: string, v: V)
    requires m != [] && m[0].0 == k
    ensures var r := [(k, v)] + m[1..];
      && Names(r) == Names(m) && k in Names(m)
      && Get(r, k) == Some(v)
      && forall k' :: k' != k ==> Get(r, k') == Get(m, k')
  {
    assert m == [m[0]] + m[1..];
    ConsNames(m[0], m[1..]);
    ConsNames((k, v), m[1..]);
    ConsGet(m[0], m[1..]);
    ConsGet((k, v), m[1..]);
  }

  /** Assigning to a later name leaves the first entry where it is. */
  lemma PutFurther<V>(m: seq<(string, V)>, k: string, v: V, t: seq<(string, V)>)
    requires m != [] && m[0].0 != k
    requires Names(t) == if k in Names(m[1..]) then Names(m[1..]) else Names(m[1..]) + [k]
    requires Get(t, k) == Some(v)
    requires forall k' :: k' != k ==> Get(t, k') == Get(m[1..], k')
    ensures var r := [m[0]] + t;
      && Names(r) == (if k in Names(m) then Names(m) else Names(m) + [k])
      && Get(r, k) == Some(v)
      && forall k' :: k' != k ==> Get(r, k') == Get(m, k')
  {
    PutFurtherNames(m, k, Names(t));
    ConsNames(m[0], t);
    assert m == [m[0]] + m[1..];
    ConsGet(m[0], m[1..]);
    ConsGet(m[0], t);
  }

  lemma PutFurtherNames<V>(m: seq<(string, V)>, k: string, nt: seq<string>)
    requires m != [] && m[0].0 != k
    requires nt == if k in Names(m[1..]) then Names(m[1..]) else Names(m[1..]) + [k]
    ensures [m[0].0] + nt == if k in Names(m) then Names(m) else Names(m) + [k]
  {
    assert m == [m[0]] + m[1..];
    ConsNames(m[0], m[1..]);
    var ns := Names(m[1..]);
    assert k in Names(m) <==> k in ns;
    if k !in ns {
      assert [m[0].0] + (ns + [k]) == ([m[0].0] + ns) + [k];
    }
  }

  /** Listing the names of a dictionary with one more entry in front. */
  lemma ConsNames<V>(x: (string, V), t: seq<(string, V)>)
    ensures Names([x] + t) == [x.0] + Names(t)
  {
    var m := [x] + t;
    assert forall i :: 0 < i < |m| ==> m[i] == t[i - 1];
  }

  /** Looking up a name in a dictionary with one more entry in front. */
  lemma ConsGet<V>(x: (string, V), t: seq<(string, V)>)
    ensures forall k :: Get([x] + t, k) == if x.0 == k then Some(x.1) else Get(t, k)
  {
    assert ([x] + t)[1..] == t;
  }

  /** Assignment keeps the names distinct. */
  lemma PutUnique<V>(m: seq<(string, V)>, k: string, v: V)
    requires Unique(m)
    ensures Unique(Put(m, k, v))
  {
  }

  /** `m.update(ps)`: the entries of `ps` put into `m` one after the other. */
  function PutAll<V>(m: seq<(string, V)>, ps: seq<(string, V)>): (r: seq<(string, V)>)
    ensures forall k :: k in Names(r) <==> k in Names(m) || k in Names(ps)
    ensures forall k :: k !in Names(ps) ==> Get(r, k) == Get(m, k)
    ensures Unique(m) ==> Unique(r)
    decreases |ps|
  {
    if ps == [] then m
    else
      var init := ps[..|ps| - 1];
      assert Names(ps) == Names(init) + [ps[|ps| - 1].0];
      var prev := PutAll(m, init);
      if Unique(m) then PutUnique(prev, ps[|ps| - 1].0, ps[|ps| - 1].1); Put(prev, ps[|ps| - 1].0, ps[|ps| - 1].1)
      else Put(prev, ps[|ps| - 1].0, ps[|ps| - 1].1)
  }

  /** After `m.update(ps)` with distinct names in `ps`, each of them holds its value from `ps`. */
  lemma {:induction false} PutAllGet<V>(m: seq<(string, V)>, ps: seq<(string, V)>, k: string)
    requires Unique(ps) && k in Names(ps)
    ensures Get(PutAll(m, ps), k) == Get(ps, k)
    decreases |ps|
  {
    var init := ps[..|ps| - 1];
    var last := ps[|ps| - 1];
    assert Names(ps) == Names(init) + [last.0];
    if k == last.0 {
      assert forall i :: 0 <= i < |init| ==> init[i].0 != k;
      assert Get(ps, k) == Some(last.1) by {
        UniqueGet(ps, |ps| - 1);
      }
    } else {
      assert Unique(init);
      PutAllGet(m, init, k);
      GetPrefix(ps, |ps| - 1, k);
    }
  }

  /** In a dictionary with distinct names, the entry at index `i` is what its name looks up. */
  lemma {:induction false} UniqueGet<V>(m: seq<(string, V)>, i: nat)
    requires Unique(m) && i < |m|
    ensures Get(m, m[i].0) == Some(m[i].1)
  {
    if i > 0 {
      assert Names(m[1..]) == Names(m)[1..];
      UniqueGet(m[1..], i - 1);
    }
  }

  /** Looking up a name that occurs in a prefix finds the same value as in the whole. */
  lemma {:induction false} GetPrefix<V>(m: seq<(string, V)>, n: nat, k: string)
    requires n <= |m| && k in Names(m[..n])
    ensures Get(m, k) == Get(m[..n], k)
  {
    if m[0].0 != k {
      assert m[..n][1..] == m[1..][..n - 1];
      assert Names(m[..n]) == [m[0].0] + Names(m[1..][..n - 1]);
      GetPrefix(m[1..], n - 1, k);
    }
  }
  /** A new name goes at the end. */
  lemma {:induction false} PutNew<V>(m: seq<(string, V)>, k: string, v: V)
    requires k !in Names(m)
    ensures Put(m, k, v) == m + [(k, v)]
  {
    if m != [] {
      assert Names(m) == [m[0].0] + Names(m[1..]);
      PutNew(m[1..], k, v);
      assert m == [m[0]] + m[1..];
      assert [m[0]] + (m[1..] + [(k, v)]) == m + [(k, v)];
    }
  }

  lemma Snoc<T>(s: seq<T>)
    requires s != []
    ensures s[..|s| - 1] + [s[|s| - 1]] == s
  {
  }

  /** `OrderedDict(items)` of distinct names keeps the items as they are, in order. */
  lemma {:induction false} PutAllFresh<V>(ps: seq<(string, V)>)
    requires Unique(ps)
    ensures PutAll([], ps) == ps
    decreases |ps|
  {
    if ps != [] {
      var init := ps[..|ps| - 1];
      var last := ps[|ps| - 1];
      assert Names(ps) == Names(init) + [last.0];
      assert Unique(init) by {
        assert forall i :: 0 <= i < |init| ==> Names(init)[i] == Names(ps)[i];
      }
      assert last.0 !in Names(init) by {
        assert forall i :: 0 <= i < |init| ==> Names(init)[i] == Names(ps)[i];
      }
      PutAllFresh(init);
      assert PutAll([], ps) == Put(init, last.0, last.1);
      PutNew(init, last.0, last.1);
      Snoc(ps);
    }
  }

  /** When a name occurs several times in `ps`, its last occurrence is the value kept. */
  lemma {:induction false} PutAllLast<V>(m: seq<(string, V)>, ps: seq<(string, V)>, i: nat)
    requires i < |ps| && forall j :: i < j < |ps| ==> ps[j].0 != ps[i].0
    ensures Get(PutAll(m, ps), ps[i].0) == Some(ps[i].1)
    decreases |ps|
  {
    var init := ps[..|ps| - 1];
    if i < |ps| - 1 {
      PutAllLast(m, init, i);
    }
  }

  /** Updating never moves the names already there: they stay in front, in order. */
  lemma {:induction false} PutAllPrefix<V>(m: seq<(string, V)>, ps: seq<(string, V)>)
    ensures Names(m) <= Names(PutAll(m, ps))
    decreases |ps|
  {
    if ps != [] {
      var init := ps[..|ps| - 1];
      PutAllPrefix(m, init);
      var prev := PutAll(m, init);
      assert Names(prev) <= Names(PutAll(m, ps));
    }
  }
}
