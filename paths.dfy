/**
 * How `XmlFactory._obtain_element` walks a path such as `alpha/bravo+/charlie`: the path is split
 * at `/`; a part ending in `+` always appends a new child (one `+` stripped off), any other part
 * descends into the first child with that tag and appends one only when there is none.
 */
module Paths {
  import opened Wrappers
  import opened Text
  import opened Tree

  /** One part of a path: the tag it names, and whether it ended in `+`. */
  datatype Segment = Segment(tag: string, forced: bool)

  /** `i_part.endswith('+')`, and `i_part[:-1]` when it does. */
  function ParseSegment(part: string): (s: Segment)
    ensures part == if s.forced then s.tag + "+" else s.tag
    ensures !s.forced ==> part == [] || part[|part| - 1] != '+'
  {
    if |part| > 0 && part[|part| - 1] == '+' then
      assert part == part[..|part| - 1] + "+";
      Segment(part[..|part| - 1], true)
    else Segment(part, false)
  }

  /** The parts of a non-empty path, in order; the empty path has none (it names the root). */
  function Segments(name: string): (segs: seq<Segment>)
    ensures name == "" ==> segs == []
    ensures name != "" ==> |segs| == Count(name, '/') + 1
    ensures name != "" ==> forall i :: 0 <= i < |segs| ==> segs[i] == ParseSegment(Split(name, '/')[i])
  {
    if name == "" then []
    else
      var parts := Split(name, '/');
      seq(|parts|, i requires 0 <= i < |parts| => ParseSegment(parts[i]))
  }

  /**
   * A part that `Element.find` reads as a plain child tag: non-empty, and free of white space and
   * of the characters ElementPath gives a meaning to.
   */
  predicate PlainTag(s: string)
  {
    s != [] && forall c <- s :: !IsSpace(c) && c !in "/@[](){}!=:'\"*."
  }

  /** Every part without a trailing `+` is a plain tag. */
  predicate PlainPath(name: string)
  {
    forall s <- Segments(name) :: s.forced || PlainTag(s.tag)
  }

  /** `parent.find(tag)` for a plain tag: the index of the first child with that tag. */
  function FirstWithTag(cs: seq<Element>, tag: string): (r: Option<nat>)
    ensures r.Some? ==> r.value < |cs| && cs[r.value].tag == tag
    ensures r.Some? ==> forall j :: 0 <= j < r.value ==> cs[j].tag != tag
    ensures r.None? <==> forall j :: 0 <= j < |cs| ==> cs[j].tag != tag
  {
    if cs == [] then None
    else if cs[0].tag == tag then Some(0)
    else match FirstWithTag(cs[1..], tag)
      case None => None
      case Some(i) => Some(i + 1)
  }

  /**
   * One turn of the loop: from the node at `c`, the child index the segment leads to, and the
   * tree after any `SubElement` it made.
   */
  function Step(t: Element, c: seq<nat>, s: Segment): (r: (Element, nat))
    requires IsPos(t, c)
    ensures IsPos(r.0, c + [r.1]) && At(r.0, c + [r.1]).tag == s.tag
  {
    var found := if s.forced then None else FirstWithTag(At(t, c).children, s.tag);
    if found.Some? then
      PosExtend(t, c, found.value);
      (t, found.value)
    else
      var t' := AppendAt(t, c, NewElement(s.tag));
      PosExtend(t', c, |At(t, c).children|);
      (t', |At(t, c).children|)
  }

  /** The whole walk from `c`: the final tree and the position of the node the path names. */
  function Resolve(t: Element, c: seq<nat>, segs: seq<Segment>): (r: (Element, seq<nat>))
    requires IsPos(t, c)
    ensures IsPos(r.0, r.1) && |r.1| == |c| + |segs| && c <= r.1
    ensures IsPos(r.0, c)
    decreases |segs|
  {
    if segs == [] then (t, c)
    else
      var (t', i) := Step(t, c, segs[0]);
      var r := Resolve(t', c + [i], segs[1..]);
      PosPrefix(r.0, r.1, c);
      r
  }

  /** From its `i`-th segment on, the walk takes that step, then walks the rest from there. */
  lemma ResolveNext(t: Element, c: seq<nat>, segs: seq<Segment>, i: nat)
    requires IsPos(t, c) && i < |segs|
    ensures var (t', k) := Step(t, c, segs[i]); Resolve(t, c, segs[i..]) == Resolve(t', c + [k], segs[i + 1..])
  {
    assert segs[i..][0] == segs[i] && segs[i..][1..] == segs[i + 1..];
  }

  /** The walk with `find` alone, creating nothing: where the path already leads, if anywhere. */
  function Lookup(t: Element, c: seq<nat>, segs: seq<Segment>): (r: Option<seq<nat>>)
    requires IsPos(t, c)
    ensures r.Some? ==> IsPos(t, r.value) && |r.value| == |c| + |segs| && c <= r.value
    decreases |segs|
  {
    if segs == [] then Some(c)
    else match FirstWithTag(At(t, c).children, segs[0].tag)
      case None => None
      case Some(i) =>
        PosExtend(t, c, i);
        Lookup(t, c + [i], segs[1..])
  }

  predicate Unforced(segs: seq<Segment>)
  {
    forall s <- segs :: !s.forced
  }

  /** Resolution only appends: every node is kept, with its tag, attributes and text. */
  lemma {:induction false} ResolveGrows(t: Element, c: seq<nat>, segs: seq<Segment>)
    requires IsPos(t, c)
    ensures Grows(t, Resolve(t, c, segs).0)
    decreases |segs|
  {
    if segs == [] {
      GrowsReflexive(t);
    } else {
      var (t', i) := Step(t, c, segs[0]);
      if t' == t {
        GrowsReflexive(t);
      } else {
        AppendGrows(t, c, NewElement(segs[0].tag));
      }
      ResolveGrows(t', c + [i], segs[1..]);
      GrowsTransitive(t, t', Resolve(t', c + [i], segs[1..]).0);
    }
  }

  /** Walking a path creates only elements without attributes, so no attribute name doubles. */
  lemma {:induction false} ResolveKeepsUnique(t: Element, c: seq<nat>, segs: seq<Segment>)
    requires IsPos(t, c) && AllUnique(t)
    ensures AllUnique(Resolve(t, c, segs).0)
    decreases |segs|
  {
    if segs != [] {
      var (t', i) := Step(t, c, segs[0]);
      var found := if segs[0].forced then None else FirstWithTag(At(t, c).children, segs[0].tag);
      if found.None? {
        AppendKeepsUnique(t, c, NewElement(segs[0].tag));
      }
      ResolveKeepsUnique(t', c + [i], segs[1..]);
    }
  }

  /** Every node off the walked path is untouched, its children included. */
  lemma {:induction false} ResolveOffPath(t: Element, c: seq<nat>, segs: seq<Segment>, q: seq<nat>)
    requires IsPos(t, c) && IsPos(t, q)
    requires !(q <= Resolve(t, c, segs).1)
    ensures IsPos(Resolve(t, c, segs).0, q) && At(Resolve(t, c, segs).0, q) == At(t, q)
    decreases |segs|
  {
    if segs != [] {
      var (t', i) := Step(t, c, segs[0]);
      var p := Resolve(t', c + [i], segs[1..]).1;
      assert c <= c + [i] <= p;
      if t' != t {
        AppendFrame(t, c, NewElement(segs[0].tag), q);
      }
      ResolveOffPath(t', c + [i], segs[1..], q);
    }
  }

  /** Where a `+`-free path already exists, resolving it changes nothing and finds that node. */
  lemma {:induction false} ResolveReuses(t: Element, c: seq<nat>, segs: seq<Segment>)
    requires IsPos(t, c) && Unforced(segs) && Lookup(t, c, segs).Some?
    ensures Resolve(t, c, segs) == (t, Lookup(t, c, segs).value)
    decreases |segs|
  {
    if segs != [] {
      var i := FirstWithTag(At(t, c).children, segs[0].tag).value;
      PosExtend(t, c, i);
      ResolveReuses(t, c + [i], segs[1..]);
    }
  }

  /** Lookups that succeed keep succeeding, with the same answer, as the tree grows. */
  lemma {:induction false} LookupStable(t: Element, u: Element, c: seq<nat>, segs: seq<Segment>)
    requires IsPos(t, c) && Grows(t, u) && Lookup(t, c, segs).Some?
    ensures IsPos(u, c) && Lookup(u, c, segs) == Lookup(t, c, segs)
    decreases |segs|
  {
    GrowsAt(t, u, c);
    if segs != [] {
      var i := FirstWithTag(At(t, c).children, segs[0].tag).value;
      FirstWithTagStable(At(t, c), At(u, c), segs[0].tag, i);
      PosExtend(t, c, i);
      PosExtend(u, c, i);
      LookupStable(t, u, c + [i], segs[1..]);
    }
  }

  /** The first child with a tag stays the first one when children are appended. */
  lemma FirstWithTagStable(a: Element, b: Element, tag: string, i: nat)
    requires Grows(a, b) && FirstWithTag(a.children, tag) == Some(i)
    ensures FirstWithTag(b.children, tag) == Some(i)
  {
    assert forall j :: 0 <= j < |a.children| ==> Grows(a.children[j], b.children[j]);
    assert forall j :: 0 <= j <= i ==> b.children[j].tag == a.children[j].tag;
    FirstWithTagIs(b.children, tag, i);
  }

  /** The first match is the only index `find` can return. */
  lemma FirstWithTagIs(cs: seq<Element>, tag: string, i: nat)
    requires i < |cs| && cs[i].tag == tag
    requires forall j :: 0 <= j < i ==> cs[j].tag != tag
    ensures FirstWithTag(cs, tag) == Some(i)
  {
  }

  /** After resolving a `+`-free path, `find` alone leads along it to the node it returned. */
  lemma {:induction false} ResolveEstablishes(t: Element, c: seq<nat>, segs: seq<Segment>)
    requires IsPos(t, c) && Unforced(segs)
    ensures Lookup(Resolve(t, c, segs).0, c, segs) == Some(Resolve(t, c, segs).1)
    decreases |segs|
  {
    if segs != [] {
      var (t', i) := Step(t, c, segs[0]);
      var r := Resolve(t', c + [i], segs[1..]);
      assert FirstWithTag(At(t', c).children, segs[0].tag) == Some(i) by {
        PosExtend(t', c, i);
      }
      ResolveGrows(t', c + [i], segs[1..]);
      GrowsAt(t', r.0, c);
      FirstWithTagStable(At(t', c), At(r.0, c), segs[0].tag, i);
      PosExtend(r.0, c, i);
      ResolveEstablishes(t', c + [i], segs[1..]);
    }
  }

  /** Resolving the same `+`-free path twice creates nodes only the first time. */
  lemma ResolveIdempotent(t: Element, c: seq<nat>, segs: seq<Segment>)
    requires IsPos(t, c) && Unforced(segs)
    ensures var r := Resolve(t, c, segs);
      IsPos(r.0, c) && Resolve(r.0, c, segs) == r
  {
    var r := Resolve(t, c, segs);
    ResolveGrows(t, c, segs);
    GrowsAt(t, r.0, c);
    ResolveEstablishes(t, c, segs);
    ResolveReuses(r.0, c, segs);
  }

  /** Walking `a + b` is walking `a`, then `b` from where `a` ended. */
  lemma {:induction false} ResolveConcat(t: Element, c: seq<nat>, a: seq<Segment>, b: seq<Segment>)
    requires IsPos(t, c)
    ensures var m := Resolve(t, c, a);
      Resolve(t, c, a + b) == Resolve(m.0, m.1, b)
    decreases |a|
  {
    if a != [] {
      var (t', i) := Step(t, c, a[0]);
      assert (a + b)[0] == a[0] && (a + b)[1..] == a[1..] + b;
      ResolveConcat(t', c + [i], a[1..], b);
    } else {
      assert a + b == b;
    }
  }

  /** A part ending in `+` appends a fresh node after all existing children of its parent. */
  lemma ForcedAppends(t: Element, c: seq<nat>, tag: string)
    requires IsPos(t, c)
    ensures var r := Resolve(t, c, [Segment(tag, true)]);
      && r.1 == c + [|At(t, c).children|]
      && r.0 == AppendAt(t, c, NewElement(tag))
  {
    var (t', i) := Step(t, c, Segment(tag, true));
    assert Resolve(t, c, [Segment(tag, true)]) == Resolve(t', c + [i], []);
  }

  /**
   * Once a `+`-free prefix has been resolved, resolving it again in any grown tree changes nothing
   * and leads to the same node.
   */
  lemma ResolveAgain(t: Element, c: seq<nat>, prefix: seq<Segment>, u: Element)
    requires IsPos(t, c) && Unforced(prefix) && Grows(Resolve(t, c, prefix).0, u)
    ensures IsPos(u, c) && Resolve(u, c, prefix) == (u, Resolve(t, c, prefix).1)
  {
    var m := Resolve(t, c, prefix);
    ResolveEstablishes(t, c, prefix);
    LookupStable(m.0, u, c, prefix);
    ResolveReuses(u, c, prefix);
  }

  /** Resolving `prefix/name+` is resolving the prefix, then appending a `name` child there. */
  lemma ResolveForcedLast(t: Element, c: seq<nat>, prefix: seq<Segment>, tag: string)
    requires IsPos(t, c)
    ensures var m := Resolve(t, c, prefix);
      Resolve(t, c, prefix + [Segment(tag, true)])
        == (AppendAt(m.0, m.1, NewElement(tag)), m.1 + [|At(m.0, m.1).children|])
  {
    var m := Resolve(t, c, prefix);
    ResolveConcat(t, c, prefix, [Segment(tag, true)]);
    ForcedAppends(m.0, m.1, tag);
  }

  /**
   * Resolving `prefix/name+` twice yields two distinct `name` siblings under the node the prefix
   * names, the second right after the first, and the first still in place.
   */
  lemma RepeatedForcedSiblings(t: Element, c: seq<nat>, prefix: seq<Segment>, tag: string)
    requires IsPos(t, c) && Unforced(prefix)
    ensures var segs := prefix + [Segment(tag, true)];
      var m := Resolve(t, c, prefix);
      var n := |At(m.0, m.1).children|;
      var r1 := Resolve(t, c, segs);
      var r2 := Resolve(r1.0, c, segs);
      && r1.1 == m.1 + [n] && r2.1 == m.1 + [n + 1]
      && IsPos(r1.0, r1.1) && At(r1.0, r1.1) == NewElement(tag)
      && IsPos(r2.0, r1.1) && At(r2.0, r1.1) == NewElement(tag)
      && IsPos(r2.0, r2.1) && At(r2.0, r2.1) == NewElement(tag)
  {
    var m := Resolve(t, c, prefix);
    ForcedTwice(t, c, prefix, tag);
    TwoAppended(m.0, m.1, NewElement(tag));
  }

  /** Two children appended to one node: the first stays in place, the second follows it. */
  lemma TwoAppended(a: Element, p: seq<nat>, x: Element)
    requires IsPos(a, p)
    ensures var n := |At(a, p).children|;
      var b := AppendAt(a, p, x);
      var c := AppendAt(b, p, x);
      && IsPos(b, p + [n]) && At(b, p + [n]) == x
      && IsPos(c, p + [n]) && At(c, p + [n]) == x
      && IsPos(c, p + [n + 1]) && At(c, p + [n + 1]) == x
  {
    var n := |At(a, p).children|;
    var b := AppendAt(a, p, x);
    PosExtend(b, p, n);
    AtConcat(b, p, [n]);
    AppendFrame(b, p, x, p + [n]);
    var c := AppendAt(b, p, x);
    PosExtend(c, p, n + 1);
    AtConcat(c, p, [n + 1]);
  }

  /** The two walks of `prefix/name+`: each appends a `name` child to the node the prefix names. */
  lemma ForcedTwice(t: Element, c: seq<nat>, prefix: seq<Segment>, tag: string)
    requires IsPos(t, c) && Unforced(prefix)
    ensures var segs := prefix + [Segment(tag, true)];
      var m := Resolve(t, c, prefix);
      var n := |At(m.0, m.1).children|;
      var r1 := Resolve(t, c, segs);
      && r1 == (AppendAt(m.0, m.1, NewElement(tag)), m.1 + [n])
      && IsPos(r1.0, c)
      && Resolve(r1.0, c, segs) == (AppendAt(r1.0, m.1, NewElement(tag)), m.1 + [n + 1])
  {
    var m := Resolve(t, c, prefix);
    ResolveForcedLast(t, c, prefix, tag);
    var r1 := Resolve(t, c, prefix + [Segment(tag, true)]);
    AppendGrows(m.0, m.1, NewElement(tag));
    ResolveAgain(t, c, prefix, r1.0);
    ResolveForcedLast(r1.0, c, prefix, tag);
  }

  /**
   * Walking from a node inside the tree is walking in that node's subtree alone and putting the
   * result back: nothing outside the subtree at `c` changes.
   */
  lemma {:induction false} ResolveLocal(t: Element, c: seq<nat>, d: seq<nat>, segs: seq<Segment>)
    requires IsPos(t, c) && IsPos(At(t, c), d)
    ensures IsPos(t, c + d)
    ensures var local := Resolve(At(t, c), d, segs);
      Resolve(t, c + d, segs) == (ReplaceAt(t, c, local.0), c + local.1)
    decreases |segs|
  {
    AtConcat(t, c, d);
    if segs == [] {
      ReplaceSame(t, c);
    } else {
      var (t', i) := Step(t, c + d, segs[0]);
      var (u', j) := Step(At(t, c), d, segs[0]);
      StepLocal(t, c, d, segs[0]);
      AtConcat(t', c, d + [i]);
      assert c + d + [i] == c + (d + [i]);
      ResolveLocal(t', c, d + [i], segs[1..]);
      var local := Resolve(u', d + [i], segs[1..]);
      ReplaceTwice(t, c, u', local.0);
    }
  }

  /** One step from a node inside the tree is that step in the node's subtree, put back. */
  lemma StepLocal(t: Element, c: seq<nat>, d: seq<nat>, s: Segment)
    requires IsPos(t, c) && IsPos(At(t, c), d) && IsPos(t, c + d)
    ensures var (t', i) := Step(t, c + d, s);
      var (u', j) := Step(At(t, c), d, s);
      && i == j && t' == ReplaceAt(t, c, u')
      && IsPos(t', c) && At(t', c) == u'
  {
    AtConcat(t, c, d);
    var u := At(t, c);
    var (t', i) := Step(t, c + d, s);
    var (u', j) := Step(u, d, s);
    assert i == j;
    if t' == t {
      assert u' == u;
      ReplaceSame(t, c);
    } else {
      AppendBelow(t, c, d, NewElement(s.tag));
      assert t' == ReplaceAt(t, c, u');
    }
  }

  /** The children a walk of `segs` creates below a node that has none: a chain of fresh nodes. */
  function Chain(segs: seq<Segment>): seq<Element>
    decreases |segs|
  {
    if segs == [] then [] else [NewElement(segs[0].tag).(children := Chain(segs[1..]))]
  }

  function Zeros(n: nat): seq<nat>
  {
    seq(n, _ => 0)
  }

  /**
   * Below a node without children every segment, `+` or not, creates a node: the walk builds a
   * chain of nodes with no attributes and no text, and ends at its last one.
   */
  lemma {:induction false} ResolveFromLeaf(e: Element, segs: seq<Segment>)
    requires e.children == []
    ensures Resolve(e, [], segs) == (e.(children := Chain(segs)), Zeros(|segs|))
    decreases |segs|
  {
    if segs != [] {
      var n := NewElement(segs[0].tag);
      var (e', i) := Step(e, [], segs[0]);
      assert e' == e.(children := [n]) && i == 0;
      assert [] + [i] == [0];
      assert Resolve(e, [], segs) == Resolve(e', [0], segs[1..]);
      ResolveLocal(e', [0], [], segs[1..]);
      assert [0] + [] == [0] && At(e', [0]) == n;
      ResolveFromLeaf(n, segs[1..]);
      var x := n.(children := Chain(segs[1..]));
      assert ReplaceAt(e', [0], x) == e.(children := [x]);
      assert Resolve(n, [], segs[1..]) == (x, Zeros(|segs| - 1));
      assert Resolve(e', [0], segs[1..]) == (e.(children := [x]), [0] + Zeros(|segs| - 1));
      assert Chain(segs) == [x];
      assert [0] + Zeros(|segs| - 1) == Zeros(|segs|);
    } else {
      assert Zeros(0) == [];
    }
  }

  /**
   * Once a segment creates a node, so does every later one: all the walk creates from there on
   * is a chain of fresh nodes hanging from the first node created.
   */
  lemma CreationContinues(t: Element, c: seq<nat>, segs: seq<Segment>, k: nat)
    requires IsPos(t, c) && k < |segs|
    requires var m := Resolve(t, c, segs[..k]); Step(m.0, m.1, segs[k]).0 != m.0
    ensures var m := Resolve(t, c, segs[..k]);
      var i := |At(m.0, m.1).children|;
      var r := Resolve(t, c, segs);
      && r.1 == m.1 + [i] + Zeros(|segs| - k - 1)
      && IsPos(r.0, m.1 + [i])
      && At(r.0, m.1 + [i]) == NewElement(segs[k].tag).(children := Chain(segs[k + 1..]))
  {
    var m := Resolve(t, c, segs[..k]);
    var (t', i) := Step(m.0, m.1, segs[k]);
    assert i == |At(m.0, m.1).children|;
    var p := m.1 + [i];
    assert segs == segs[..k] + segs[k..];
    ResolveConcat(t, c, segs[..k], segs[k..]);
    assert Resolve(m.0, m.1, segs[k..]) == Resolve(t', p, segs[k + 1..]);
    assert t' == AppendAt(m.0, m.1, NewElement(segs[k].tag));
    PosExtend(t', m.1, i);
    assert At(t', p) == NewElement(segs[k].tag);
    ResolveLocal(t', p, [], segs[k + 1..]);
    assert p + [] == p;
    ResolveFromLeaf(NewElement(segs[k].tag), segs[k + 1..]);
  }
}
