/**
 * The element tree of `xml.etree.ElementTree` as the library uses it: a tag, an ordered attribute
 * dictionary, ordered children and optional text. A node inside a tree is addressed by its
 * position, the child indices on the way down from the root.
 */
module Tree {
  import opened Wrappers
  import opened OrderedMaps

  datatype Element = Element(
    tag: string,
    attrib: seq<(string, string)>,
    children: seq<Element>,
    text: Option<string>)

  /** What `ElementTree.Element(tag, attrib=OrderedDict())` and `SubElement` create. */
  function NewElement(tag: string): (e: Element)
    ensures e.tag == tag && e.attrib == [] && e.children == [] && e.text == None
  {
    Element(tag, [], [], None)
  }

  /** `p` leads from `t` to one of its nodes. */
  predicate IsPos(t: Element, p: seq<nat>)
    decreases |p|
  {
    p == [] || (p[0] < |t.children| && IsPos(t.children[p[0]], p[1..]))
  }

  /** The node at position `p`. */
  function At(t: Element, p: seq<nat>): Element
    requires IsPos(t, p)
    decreases |p|
  {
    if p == [] then t else At(t.children[p[0]], p[1..])
  }

  /** One step further down: position `p + [i]` is the `i`-th child of the node at `p`. */
  lemma {:induction false} PosExtend(t: Element, p: seq<nat>, i: nat)
    requires IsPos(t, p)
    ensures IsPos(t, p + [i]) <==> i < |At(t, p).children|
    ensures IsPos(t, p + [i]) ==> At(t, p + [i]) == At(t, p).children[i]
    decreases |p|
  {
    if p != [] {
      assert (p + [i])[1..] == p[1..] + [i];
      PosExtend(t.children[p[0]], p[1..], i);
    }
  }

  /** Every position on the way to a node is a node too. */
  lemma {:induction false} PosPrefix(t: Element, p: seq<nat>, q: seq<nat>)
    requires IsPos(t, p) && q <= p
    ensures IsPos(t, q)
    decreases |p|
  {
    if q != [] {
      PosPrefix(t.children[p[0]], p[1..], q[1..]);
    }
  }

  /** `SubElement(At(t, p), ...)`: `n` appended to the children of the node at `p`. */
  function AppendAt(t: Element, p: seq<nat>, n: Element): (r: Element)
    requires IsPos(t, p)
    ensures IsPos(r, p)
    ensures At(r, p) == At(t, p).(children := At(t, p).children + [n])
    decreases |p|
  {
    if p == [] then t.(children := t.children + [n])
    else t.(children := t.children[p[0] := AppendAt(t.children[p[0]], p[1..], n)])
  }

  /** The tree with the node at `p` replaced by `n`. */
  function ReplaceAt(t: Element, p: seq<nat>, n: Element): (r: Element)
    requires IsPos(t, p)
    ensures IsPos(r, p) && At(r, p) == n
    decreases |p|
  {
    if p == [] then n
    else t.(children := t.children[p[0] := ReplaceAt(t.children[p[0]], p[1..], n)])
  }

  /**
   * `b` is `a` after appending children only: same tag, attributes and text everywhere, and each
   * child list of `a` is a prefix of the corresponding one in `b`, child by child.
   */
  predicate Grows(a: Element, b: Element)
    decreases a
  {
    && a.tag == b.tag && a.attrib == b.attrib && a.text == b.text
    && |a.children| <= |b.children|
    && forall k :: 0 <= k < |a.children| ==> Grows(a.children[k], b.children[k])
  }

  lemma GrowsReflexive(a: Element)
    ensures Grows(a, a)
  {
  }

  lemma {:induction false} GrowsTransitive(a: Element, b: Element, c: Element)
    requires Grows(a, b) && Grows(b, c)
    ensures Grows(a, c)
    decreases a
  {
    forall k | 0 <= k < |a.children| ensures Grows(a.children[k], c.children[k]) {
      GrowsTransitive(a.children[k], b.children[k], c.children[k]);
    }
  }

  /** Every node of the smaller tree is still there, grown, at the same position. */
  lemma {:induction false} GrowsAt(t: Element, u: Element, p: seq<nat>)
    requires Grows(t, u) && IsPos(t, p)
    ensures IsPos(u, p) && Grows(At(t, p), At(u, p))
    decreases |p|
  {
    if p != [] {
      GrowsAt(t.children[p[0]], u.children[p[0]], p[1..]);
    }
  }

  /** Appending a child anywhere only grows the tree. */
  lemma {:induction false} AppendGrows(t: Element, p: seq<nat>, n: Element)
    requires IsPos(t, p)
    ensures Grows(t, AppendAt(t, p, n))
    decreases |p|
  {
    var r := AppendAt(t, p, n);
    if p == [] {
      forall k | 0 <= k < |t.children| ensures Grows(t.children[k], r.children[k]) {
        GrowsReflexive(t.children[k]);
      }
    } else {
      AppendGrows(t.children[p[0]], p[1..], n);
      forall k | 0 <= k < |t.children| ensures Grows(t.children[k], r.children[k]) {
        if k != p[0] {
          GrowsReflexive(t.children[k]);
        }
      }
    }
  }

  /** A node that is not the one appended to, nor above it, is left as it was. */
  lemma {:induction false} AppendFrame(t: Element, p: seq<nat>, n: Element, q: seq<nat>)
    requires IsPos(t, p) && IsPos(t, q) && !(q <= p)
    ensures IsPos(AppendAt(t, p, n), q) && At(AppendAt(t, p, n), q) == At(t, q)
    decreases |p|
  {
    if p != [] && q[0] == p[0] {
      AppendFrame(t.children[p[0]], p[1..], n, q[1..]);
    }
  }

  /** A node neither above nor below the replaced one is left as it was. */
  lemma {:induction false} ReplaceFrame(t: Element, p: seq<nat>, n: Element, q: seq<nat>)
    requires IsPos(t, p) && IsPos(t, q) && !(q <= p) && !(p <= q)
    ensures IsPos(ReplaceAt(t, p, n), q) && At(ReplaceAt(t, p, n), q) == At(t, q)
    decreases |p|
  {
    if q[0] == p[0] {
      ReplaceFrame(t.children[p[0]], p[1..], n, q[1..]);
    }
  }

  /** Replacing a node by one with the same children keeps every position. */
  lemma {:induction false} ReplaceKeepsPositions(t: Element, p: seq<nat>, n: Element, q: seq<nat>)
    requires IsPos(t, p) && IsPos(t, q) && n.children == At(t, p).children
    ensures IsPos(ReplaceAt(t, p, n), q)
    decreases |p|
  {
    if p != [] && q != [] && q[0] == p[0] {
      ReplaceKeepsPositions(t.children[p[0]], p[1..], n, q[1..]);
    }
  }

  /** The node at `c + d` is the node at `d` below the node at `c`. */
  lemma {:induction false} AtConcat(t: Element, c: seq<nat>, d: seq<nat>)
    requires IsPos(t, c)
    ensures IsPos(t, c + d) <==> IsPos(At(t, c), d)
    ensures IsPos(t, c + d) ==> At(t, c + d) == At(At(t, c), d)
    decreases |c|
  {
    if c != [] {
      assert (c + d)[0] == c[0] && (c + d)[1..] == c[1..] + d;
      AtConcat(t.children[c[0]], c[1..], d);
    } else {
      assert c + d == d;
    }
  }

  /** Putting back the node that is already there changes nothing. */
  lemma {:induction false} ReplaceSame(t: Element, c: seq<nat>)
    requires IsPos(t, c)
    ensures ReplaceAt(t, c, At(t, c)) == t
    decreases |c|
  {
    if c != [] {
      ReplaceSame(t.children[c[0]], c[1..]);
    }
  }

  /** The second of two replacements at the same node is the one that counts. */
  lemma {:induction false} ReplaceTwice(t: Element, c: seq<nat>, a: Element, b: Element)
    requires IsPos(t, c)
    ensures IsPos(ReplaceAt(t, c, a), c)
    ensures ReplaceAt(ReplaceAt(t, c, a), c, b) == ReplaceAt(t, c, b)
    decreases |c|
  {
    if c != [] {
      ReplaceTwice(t.children[c[0]], c[1..], a, b);
    }
  }

  /** Appending below `c` replaces the subtree at `c` by that subtree with the child appended. */
  lemma {:induction false} AppendBelow(t: Element, c: seq<nat>, d: seq<nat>, n: Element)
    requires IsPos(t, c) && IsPos(At(t, c), d)
    ensures IsPos(t, c + d)
    ensures AppendAt(t, c + d, n) == ReplaceAt(t, c, AppendAt(At(t, c), d, n))
    decreases |c|
  {
    AtConcat(t, c, d);
    if c != [] {
      assert (c + d)[0] == c[0] && (c + d)[1..] == c[1..] + d;
      AppendBelow(t.children[c[0]], c[1..], d, n);
    } else {
      assert c + d == d;
    }
  }

  /** Replacing a node by one with the same children leaves everything below it as it was. */
  lemma {:induction false} ReplaceKeepsBelow(t: Element, p: seq<nat>, n: Element, d: seq<nat>)
    requires IsPos(t, p) && n.children == At(t, p).children && d != [] && IsPos(t, p + d)
    ensures IsPos(ReplaceAt(t, p, n), p + d) && At(ReplaceAt(t, p, n), p + d) == At(t, p + d)
    decreases |p|
  {
    AtConcat(t, p, d);
    var r := ReplaceAt(t, p, n);
    AtConcat(r, p, d);
  }

  /**
   * Replacing a node by one with the same children leaves the nodes above it with their tag,
   * attributes, text and number of children.
   */
  lemma {:induction false} ReplaceKeepsAbove(t: Element, p: seq<nat>, n: Element, q: seq<nat>)
    requires IsPos(t, p) && q <= p && q != p
    ensures IsPos(t, q) && IsPos(ReplaceAt(t, p, n), q)
    ensures var a, b := At(t, q), At(ReplaceAt(t, p, n), q);
      a.tag == b.tag && a.attrib == b.attrib && a.text == b.text && |a.children| == |b.children|
    decreases |p|
  {
    PosPrefix(t, p, q);
    if q != [] {
      ReplaceKeepsAbove(t.children[p[0]], p[1..], n, q[1..]);
    }
  }

  /** Every attribute dictionary in the tree holds each name once, as a Python `dict` does. */
  predicate AllUnique(t: Element)
    decreases t
  {
    Unique(t.attrib) && forall c <- t.children :: AllUnique(c)
  }

  /** Every node of such a tree is such a tree itself. */
  lemma {:induction false} AllUniqueAt(t: Element, p: seq<nat>)
    requires AllUnique(t) && IsPos(t, p)
    ensures AllUnique(At(t, p))
    decreases |p|
  {
    if p != [] {
      assert t.children[p[0]] in t.children;
      AllUniqueAt(t.children[p[0]], p[1..]);
    }
  }

  /** Putting such a node in place of another keeps the whole tree so. */
  lemma {:induction false} ReplaceKeepsUnique(t: Element, p: seq<nat>, n: Element)
    requires AllUnique(t) && IsPos(t, p) && AllUnique(n)
    ensures AllUnique(ReplaceAt(t, p, n))
    decreases |p|
  {
    if p != [] {
      var c := t.children[p[0]];
      assert c in t.children;
      ReplaceKeepsUnique(c, p[1..], n);
      var cs := t.children[p[0] := ReplaceAt(c, p[1..], n)];
      forall d | d in cs ensures AllUnique(d) {
        var k :| 0 <= k < |cs| && cs[k] == d;
        if k != p[0] {
          assert t.children[k] in t.children;
        }
      }
    }
  }

  /** Appending such a node keeps the whole tree so. */
  lemma AppendKeepsUnique(t: Element, p: seq<nat>, n: Element)
    requires AllUnique(t) && IsPos(t, p) && AllUnique(n)
    ensures AllUnique(AppendAt(t, p, n))
  {
    var a := At(t, p);
    AllUniqueAt(t, p);
    var b := a.(children := a.children + [n]);
    assert AllUnique(b) by {
      forall d | d in b.children ensures AllUnique(d) {
        var k :| 0 <= k < |b.children| && b.children[k] == d;
        if k < |a.children| {
          assert a.children[k] in a.children;
        }
      }
    }
    ReplaceKeepsUnique(t, p, b);
    AppendIsReplace(t, p, n);
  }

  /** Appending below `p` is replacing the node at `p` by itself with one more child. */
  lemma {:induction false} AppendIsReplace(t: Element, p: seq<nat>, n: Element)
    requires IsPos(t, p)
    ensures AppendAt(t, p, n) == ReplaceAt(t, p, At(t, p).(children := At(t, p).children + [n]))
    decreases |p|
  {
    if p != [] {
      AppendIsReplace(t.children[p[0]], p[1..], n);
    }
  }
}
