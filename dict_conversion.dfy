/**
 * `XmlFactory.as_dict`: the tree turned into nested ordered dictionaries, lists and strings by a
 * heuristic that looks only at the first two children of an element to decide whether they form
 * a record (tags differ) or a list (tags repeat).
 */
module DictConversion {
  import opened Wrappers
  import opened Text
  import opened Tree
  import opened OrderedMaps
  import opened Sorting

  /** The Python values the conversion builds: `None`, `str`, `OrderedDict` and `list`. */
  datatype Value =
    | Null
    | Str(s: string)
    | Dict(entries: seq<(string, Value)>)
    | List(items: seq<Value>)

  /** `dict(element.items())`, entry for entry, each value a string. */
  function AsValues(attrib: seq<(string, string)>): (r: seq<(string, Value)>)
    ensures |r| == |attrib|
    ensures forall i :: 0 <= i < |r| ==> r[i] == (attrib[i].0, Str(attrib[i].1))
  {
    seq(|attrib|, i requires 0 <= i < |attrib| => (attrib[i].0, Str(attrib[i].1)))
  }

  /**
   * The record test: a single child, or first two children with different tags. Children with
   * distinct tags always make a record; a list needs its first two children to share a tag.
   */
  predicate IsRecord(e: Element)
    requires e.children != []
    ensures (forall i, j :: 0 <= i < j < |e.children| ==> e.children[i].tag != e.children[j].tag) ==> IsRecord(e)
  {
    |e.children| == 1 || e.children[0].tag != e.children[1].tag
  }

  /**
   * `xml_to_dict(e)`: the attributes, then one entry per child, each `update` putting the
   * child's value under its tag.
   */
  function ToDict(e: Element): (r: Value)
    ensures r.Dict?
    decreases e, 0
  {
    Dict(PutAll(PutAll([], AsValues(e.attrib)), Members(e.children)))
  }

  /** The entries the loop over the children updates the dictionary with, in order. */
  function Members(cs: seq<Element>): (r: seq<(string, Value)>)
    ensures |r| == |cs|
    ensures forall i :: 0 <= i < |cs| ==> r[i].0 == cs[i].tag
    decreases cs
  {
    if cs == [] then [] else [(cs[0].tag, MemberValue(cs[0]))] + Members(cs[1..])
  }

  /** The entry for the `i`-th child holds that child's value. */
  lemma {:induction false} MemberAt(cs: seq<Element>, i: nat)
    requires i < |cs|
    ensures Members(cs)[i] == (cs[i].tag, MemberValue(cs[i]))
  {
    if i > 0 {
      MemberAt(cs[1..], i - 1);
    }
  }

  /**
   * The value stored under a child's tag: a dictionary for a child with children or attributes,
   * its raw text otherwise.
   */
  function MemberValue(c: Element): (r: Value)
    ensures c.children != [] || c.attrib != [] ==> r.Dict?
    ensures c.children == [] && c.attrib == [] ==> r == (if c.text.Some? then Str(c.text.value) else Null)
    decreases c, 1
  {
    if c.children != [] then
      var aDict :=
        if IsRecord(c) then ToDict(c)
        else Dict([(c.children[0].tag, ToList(c))]);
      if c.attrib != [] then Dict(PutAll(aDict.entries, AsValues(c.attrib))) else aDict
    else if c.attrib != [] then Dict(AsValues(Sort(c.attrib)))
    else if c.text.Some? then Str(c.text.value)
    else Null
  }

  /** `xml_to_list(e)`: one item per child that has children or non-blank text. */
  function ToList(e: Element): (r: Value)
    ensures r.List? && |r.items| <= |e.children|
    decreases e, 0
  {
    List(ListItems(e.children, |e.children|))
  }

  /** An item `xml_to_list` may append: no `None`, and no string that is empty or padded. */
  predicate IsListItem(v: Value)
  {
    v.Dict? || v.List? || (v.Str? && v.s != [] && !IsSpace(v.s[0]) && !IsSpace(v.s[|v.s| - 1]))
  }

  /**
   * What one child adds to the list: its conversion if it has children, its stripped text if
   * that is not blank, and nothing otherwise.
   */
  function ListItem(c: Element): (r: Option<Value>)
    ensures r.Some? ==> IsListItem(r.value)
    ensures c.children != [] ==> r.Some? && (r.value.Dict? <==> IsRecord(c))
    ensures c.children == [] ==> (r.None? <==> c.text.None? || Strip(c.text.value) == [])
    ensures c.children == [] && r.Some? ==> r.value == Str(Strip(c.text.value))
    decreases c, 1
  {
    if c.children != [] then Some(if IsRecord(c) then ToDict(c) else ToList(c))
    else if c.text.Some? && c.text.value != [] && Strip(c.text.value) != [] then Some(Str(Strip(c.text.value)))
    else None
  }

  /** The list after the loop has seen the first `n` children. */
  function ListItems(cs: seq<Element>, n: nat): (r: seq<Value>)
    requires n <= |cs|
    ensures |r| <= n
    decreases cs, n
  {
    if n == 0 then []
    else
      var init := ListItems(cs, n - 1);
      match ListItem(cs[n - 1])
      case Some(v) => init + [v]
      case None => init
  }

  /** `xml_to_list` appends something for a child with children, or with non-blank text. */
  predicate Contributes(c: Element)
  {
    c.children != [] || (c.text.Some? && Strip(c.text.value) != [])
  }

  /** The positions, among the first `n` children, of those that add an item to the list. */
  function Contributors(cs: seq<Element>, n: nat): (r: seq<nat>)
    requires n <= |cs|
    ensures forall k :: 0 <= k < |r| ==> r[k] < n && Contributes(cs[r[k]])
    ensures forall k, l :: 0 <= k < l < |r| ==> r[k] < r[l]
    ensures forall i :: 0 <= i < n && Contributes(cs[i]) ==> i in r
  {
    if n == 0 then []
    else if Contributes(cs[n - 1]) then Contributors(cs, n - 1) + [n - 1]
    else Contributors(cs, n - 1)
  }

  /**
   * The list holds one item per contributing child, in document order: the `k`-th item is the
   * item of the `k`-th contributor, whatever the tags of the children are.
   */
  lemma {:induction false} ListItemsFromContributors(cs: seq<Element>, n: nat)
    requires n <= |cs|
    ensures var r, idx := ListItems(cs, n), Contributors(cs, n);
      |r| == |idx| && forall k :: 0 <= k < |r| ==> Some(r[k]) == ListItem(cs[idx[k]])
    decreases n
  {
    if n > 0 {
      ListItemsFromContributors(cs, n - 1);
      var c := cs[n - 1];
      var prev, before := ListItems(cs, n - 1), Contributors(cs, n - 1);
      if Contributes(c) {
        var v := ListItem(c).value;
        var r, idx := prev + [v], before + [n - 1];
        assert ListItems(cs, n) == r && Contributors(cs, n) == idx;
        forall k | 0 <= k < |r| ensures Some(r[k]) == ListItem(cs[idx[k]]) {
          if k < |prev| {
            assert r[k] == prev[k] && idx[k] == before[k];
          } else {
            assert r[k] == v && idx[k] == n - 1;
          }
        }
      } else {
        assert ListItem(c).None?;
        assert ListItems(cs, n) == prev && Contributors(cs, n) == before;
      }
    }
  }

  /**
   * The list branch of a member: the list sits under the first child's tag, with the member's
   * attributes merged in after it. Every child that has children or non-blank text contributes
   * its item, also one whose tag differs from the first two.
   */
  lemma ListBranch(c: Element)
    requires c.children != [] && !IsRecord(c)
    ensures |c.children| >= 2 && c.children[0].tag == c.children[1].tag
    ensures c.attrib == [] ==> MemberValue(c) == Dict([(c.children[0].tag, ToList(c))])
    ensures c.attrib != [] ==>
      MemberValue(c) == Dict(PutAll([(c.children[0].tag, ToList(c))], AsValues(c.attrib)))
    ensures |ToList(c).items| == |Contributors(c.children, |c.children|)|
    ensures forall i :: 0 <= i < |c.children| && Contributes(c.children[i]) ==>
      ListItem(c.children[i]).Some? && ListItem(c.children[i]).value in ToList(c).items
  {
    var cs := c.children;
    var r, idx := ToList(c).items, Contributors(cs, |cs|);
    ListItemsFromContributors(cs, |cs|);
    forall i | 0 <= i < |cs| && Contributes(cs[i])
      ensures ListItem(cs[i]).Some? && ListItem(cs[i]).value in r
    {
      var k :| 0 <= k < |idx| && idx[k] == i;
      assert Some(r[k]) == ListItem(cs[i]);
    }
  }

  /**
   * A record member: the child converted on its own, as `xml_to_dict` would the root, with its
   * attributes merged in once more after its children's entries.
   */
  lemma RecordBranch(c: Element)
    requires c.children != [] && IsRecord(c)
    ensures c.attrib == [] ==> MemberValue(c) == ToDict(c)
    ensures c.attrib != [] ==> MemberValue(c) == Dict(PutAll(ToDict(c).entries, AsValues(c.attrib)))
  {
  }

  /** No `None` and no blank or padded string ever gets into the list. */
  lemma {:induction false} ListItemsAreItems(cs: seq<Element>, n: nat)
    requires n <= |cs|
    ensures forall v <- ListItems(cs, n) :: IsListItem(v)
    decreases n
  {
    if n > 0 {
      ListItemsAreItems(cs, n - 1);
    }
  }

  /** Looking a name up among the converted attributes finds its string. */
  lemma {:induction false} GetAsValues(attrib: seq<(string, string)>, k: string)
    ensures Get(AsValues(attrib), k) == match Get(attrib, k) case Some(v) => Some(Str(v)) case None => None
  {
    if attrib != [] {
      GetAsValues(attrib[1..], k);
      assert AsValues(attrib)[1..] == AsValues(attrib[1..]);
    }
  }

  /** The keys are the attribute names and the child tags, none of them twice. */
  lemma DictKeys(e: Element)
    ensures Unique(ToDict(e).entries)
    ensures forall k :: k in Names(ToDict(e).entries) <==>
      k in Names(e.attrib) || exists c <- e.children :: c.tag == k
  {
    var ps := AsValues(e.attrib);
    var ms := Members(e.children);
    assert Names(ps) == Names(e.attrib);
    MemberNames(e.children);
    assert ToDict(e).entries == PutAll(PutAll([], ps), ms);
  }

  /** The entries for the children are keyed by exactly the children's tags. */
  lemma MemberNames(cs: seq<Element>)
    ensures forall k :: k in Names(Members(cs)) <==> exists c <- cs :: c.tag == k
  {
    var ms := Members(cs);
    forall k ensures k in Names(ms) <==> exists c <- cs :: c.tag == k {
      if k in Names(ms) {
        var i :| 0 <= i < |ms| && Names(ms)[i] == k;
        assert cs[i] in cs;
      }
      if c :| c in cs && c.tag == k {
        var i :| 0 <= i < |cs| && cs[i] == c;
        assert Names(ms)[i] == k;
      }
    }
  }

  /** The attributes come first, in their own order. */
  lemma AttributesFirst(e: Element)
    requires Unique(e.attrib)
    ensures Names(e.attrib) <= Names(ToDict(e).entries)
  {
    var ps := AsValues(e.attrib);
    assert Names(ps) == Names(e.attrib);
    PutAllFresh(ps);
    PutAllPrefix(ps, Members(e.children));
  }

  /** Among siblings with one tag, the last one's value is the one kept. */
  lemma LastSiblingWins(e: Element, i: nat)
    requires i < |e.children|
    requires forall j :: i < j < |e.children| ==> e.children[j].tag != e.children[i].tag
    ensures Get(ToDict(e).entries, e.children[i].tag) == Some(MemberValue(e.children[i]))
  {
    PutAllLast(PutAll([], AsValues(e.attrib)), Members(e.children), i);
    MemberAt(e.children, i);
  }

  /** A root attribute that no child's tag shadows keeps its value. */
  lemma RootAttributeKept(e: Element, k: string)
    requires Unique(e.attrib) && k in Names(e.attrib)
    requires forall c <- e.children :: c.tag != k
    ensures Get(ToDict(e).entries, k) == Some(Str(Get(e.attrib, k).value))
  {
    var ps := AsValues(e.attrib);
    assert Names(ps) == Names(e.attrib);
    PutAllFresh(ps);
    GetAsValues(e.attrib, k);
    var ms := Members(e.children);
    assert k !in Names(ms) by {
      forall i | 0 <= i < |ms| ensures Names(ms)[i] != k {
        assert e.children[i] in e.children;
      }
    }
  }

  /**
   * Below the root it is the other way round: the attributes of a child with children are merged
   * in after its own entries, so they win over a grandchild with the same tag.
   */
  lemma MemberAttributesWin(c: Element, k: string)
    requires c.children != [] && Unique(c.attrib) && k in Names(c.attrib)
    ensures Get(MemberValue(c).entries, k) == Some(Str(Get(c.attrib, k).value))
  {
    var ps := AsValues(c.attrib);
    assert Names(ps) == Names(c.attrib);
    var aDict := if IsRecord(c) then ToDict(c) else Dict([(c.children[0].tag, ToList(c))]);
    PutAllGet(aDict.entries, ps, k);
    GetAsValues(c.attrib, k);
  }

  /**
   * A childless child with attributes becomes its attributes in ascending order; its text is
   * dropped, and the order the attributes were set in does not show.
   */
  lemma LeafAttributes(c: Element, d: Element)
    requires c.children == [] && c.attrib != []
    requires d.children == [] && multiset(d.attrib) == multiset(c.attrib)
    ensures var s := Sort(c.attrib);
      && MemberValue(c) == Dict(AsValues(s))
      && Sorted(s) && multiset(s) == multiset(c.attrib)
      && MemberValue(d) == MemberValue(c)
  {
    SortSpec(c.attrib);
    SortIgnoresOrder(c.attrib, d.attrib);
    assert d.attrib != [] by {
      assert |d.attrib| == |multiset(d.attrib)| == |multiset(c.attrib)| == |c.attrib|;
    }
  }

  /** The text of a childless element as `xml_to_list` keeps it: stripped, if not blank. */
  predicate HasWords(c: Element)
  {
    c.children == [] && c.text.Some? && Strip(c.text.value) != []
  }

  /** The stripped texts of the first `n` children, in document order. */
  function StrippedTexts(cs: seq<Element>, n: nat): (r: seq<Value>)
    requires n <= |cs|
    ensures |r| == n
  {
    if n == 0 then []
    else StrippedTexts(cs, n - 1) + [Str(Strip(if cs[n - 1].text.Some? then cs[n - 1].text.value else []))]
  }

  /**
   * A run of childless elements with non-blank text becomes the list of their stripped texts, in
   * document order.
   */
  lemma {:induction false} ListOfTexts(cs: seq<Element>, n: nat)
    requires n <= |cs| && AllHaveWords(cs, n)
    ensures ListItems(cs, n) == StrippedTexts(cs, n)
    decreases n
  {
    if n > 0 {
      ListOfTexts(cs, n - 1);
      TextItem(cs, n);
    }
  }

  /** The first `n` children all have words. */
  predicate AllHaveWords(cs: seq<Element>, n: nat)
    requires n <= |cs|
  {
    n == 0 || (AllHaveWords(cs, n - 1) && HasWords(cs[n - 1]))
  }

  /** The `n`-th child, a text, adds its stripped text to the list. */
  lemma TextItem(cs: seq<Element>, n: nat)
    requires 0 < n <= |cs| && HasWords(cs[n - 1])
    requires ListItems(cs, n - 1) == StrippedTexts(cs, n - 1)
    ensures ListItems(cs, n) == StrippedTexts(cs, n)
  {
    var c := cs[n - 1];
    assert ListItem(c) == Some(Str(Strip(c.text.value)));
  }
}
