/**
 * `WritePrettyXMLElement`: an element written as text, two spaces of indentation per level,
 * attributes in ascending order with escaped values, every child on a line of its own, and one of
 * three endings: `/>` for an empty element, `</tag>` right after the text when there is text, and
 * `</tag>` on a line of its own otherwise.
 */
module PrettyXml {
  import opened Wrappers
  import opened Tree
  import opened Sorting
  import opened Escaping

  /** `INDENT * n` with `INDENT = '  '`. */
  function Indent(n: nat): (s: string)
    ensures |s| == 2 * n && forall k :: 0 <= k < |s| ==> s[k] == ' '
  {
    if n == 0 then [] else "  " + Indent(n - 1)
  }

  /** One attribute as written: ` name="escaped value"`. */
  function RenderAttribute(a: (string, string)): string
  {
    " " + a.0 + "=\"" + Escape(a.1) + "\""
  }

  /** Attributes written one after the other, in the order given, each as ` name="..."`. */
  function RenderAttributes(attrs: seq<(string, string)>): string
  {
    if attrs == [] then [] else RenderAttributes(attrs[..|attrs| - 1]) + RenderAttribute(attrs[|attrs| - 1])
  }

  /** The start tag up to, not including, its closing `>` or `/>`. */
  function StartTag(e: Element, indent: nat): string
  {
    Indent(indent) + "<" + e.tag + RenderAttributes(Sort(e.attrib))
  }

  /** The closing `</tag>` with what precedes it: the escaped text, or a newline and the indent. */
  function EndTag(e: Element, indent: nat): string
  {
    (if e.text.Some? then Escape(e.text.value) else "\n" + Indent(indent)) + ("</" + e.tag + ">")
  }

  /** The text the pretty printer writes for `e` at level `indent`. */
  function Render(e: Element, indent: nat): (r: string)
    ensures |r| > 2 * indent + |e.tag| + 1 && r[|r| - 1] == '>'
    decreases e
  {
    var start := StartTag(e, indent);
    if e.children == [] && e.text.None? then start + "/>"
    else start + ">" + RenderChildren(e.children, |e.children|, indent + 1) + EndTag(e, indent)
  }

  /** The first `n` children, each after a newline. */
  function RenderChildren(cs: seq<Element>, n: nat, indent: nat): string
    requires n <= |cs|
    decreases cs, n
  {
    if n == 0 then [] else RenderChildren(cs, n - 1, indent) + "\n" + Render(cs[n - 1], indent)
  }

  /** Each attribute is written on its own: writing two runs of attributes is writing both. */
  lemma {:induction false} RenderAttributesConcat(a: seq<(string, string)>, b: seq<(string, string)>)
    ensures RenderAttributes(a + b) == RenderAttributes(a) + RenderAttributes(b)
    decreases |b|
  {
    if b == [] {
      assert a + b == a;
    } else {
      var init, x := b[..|b| - 1], b[|b| - 1];
      assert (a + b)[..|a + b| - 1] == a + init && (a + b)[|a + b| - 1] == x;
      RenderAttributesConcat(a, init);
      assert RenderAttributes(a + b) == RenderAttributes(a + init) + RenderAttribute(x);
      assert RenderAttributes(b) == RenderAttributes(init) + RenderAttribute(x);
    }
  }

  /**
   * Nothing is written for no attributes; otherwise the attributes start with the space that
   * separates them from the tag and end with the `"` that closes the last value.
   */
  lemma {:induction false} RenderAttributesShape(attrs: seq<(string, string)>)
    ensures RenderAttributes(attrs) == [] <==> attrs == []
    ensures attrs != [] ==> var r := RenderAttributes(attrs); r[0] == ' ' && r[|r| - 1] == '"'
  {
    if attrs != [] {
      var init := attrs[..|attrs| - 1];
      RenderAttributesShape(init);
      var r := RenderAttributes(attrs);
      var last := RenderAttribute(attrs[|attrs| - 1]);
      assert r == RenderAttributes(init) + last;
      assert last[0] == ' ' && last[|last| - 1] == '"';
    }
  }

  /**
   * The start tag is the indentation, `<` and the tag, followed by the attributes: it is no
   * longer than those exactly when the element has no attributes.
   */
  lemma StartTagShape(e: Element, indent: nat)
    ensures var t := StartTag(e, indent); var head := Indent(indent) + "<" + e.tag;
      |head| <= |t| && t[..|head|] == head && (|t| == 2 * indent + 1 + |e.tag| <==> e.attrib == [])
  {
    SortSpec(e.attrib);
    RenderAttributesShape(Sort(e.attrib));
    if Sort(e.attrib) == [] {
      assert multiset(e.attrib) == multiset{};
    }
  }

  /**
   * The end tag closes with `</tag>`. Before it comes the text, escaped so that it reads back
   * unchanged, or, when there is no text, a newline and the element's own indentation.
   */
  lemma EndTagShape(e: Element, indent: nat)
    ensures var t := EndTag(e, indent); var close := "</" + e.tag + ">";
      && |close| <= |t| && t[|t| - |close|..] == close
      && (e.text.Some? ==> Unescape(t[..|t| - |close|]) == e.text.value)
      && (e.text.None? ==> t[..|t| - |close|] == "\n" + Indent(indent))
  {
    var close := "</" + e.tag + ">";
    var before := if e.text.Some? then Escape(e.text.value) else "\n" + Indent(indent);
    assert EndTag(e, indent) == before + close;
    Suffix(before, close);
    assert (before + close)[..|before|] == before;
    if e.text.Some? {
      UnescapeEscape(e.text.value);
    }
  }

  /**
   * No children, nothing written; otherwise the first child comes first, on a new line at the
   * children's indentation, and the last child's closing `>` comes last.
   */
  lemma {:induction false} RenderChildrenShape(cs: seq<Element>, n: nat, indent: nat)
    requires n <= |cs|
    ensures RenderChildren(cs, n, indent) == [] <==> n == 0
    ensures n > 0 ==> var r := RenderChildren(cs, n, indent);
      var head := "\n" + Indent(indent) + "<" + cs[0].tag;
      |head| <= |r| && r[..|head|] == head && r[|r| - 1] == '>'
  {
    if n > 0 {
      var r := RenderChildren(cs, n, indent);
      var head := "\n" + Indent(indent) + "<" + cs[0].tag;
      var prev := RenderChildren(cs, n - 1, indent);
      var last := Render(cs[n - 1], indent);
      assert r == prev + "\n" + last;
      Ends(prev + "\n", last);
      if n == 1 {
        RenderFrame(cs[0], indent);
        FirstChild(last, indent, cs[0].tag);
        assert r == "\n" + last;
      } else {
        RenderChildrenShape(cs, n - 1, indent);
        Starts(prev, "\n", head);
        Starts(prev + "\n", last, head);
      }
    }
  }

  /** A newline in front of a child's output puts it in front of the child's indent and tag. */
  lemma FirstChild(last: string, indent: nat, tag: string)
    requires var h := Indent(indent) + "<" + tag; |h| <= |last| && last[..|h|] == h
    ensures var head := "\n" + Indent(indent) + "<" + tag;
      |head| <= |"\n" + last| && ("\n" + last)[..|head|] == head
  {
  }

  /** What `a` starts with, `a + b` starts with too. */
  lemma Starts(a: string, b: string, h: string)
    requires |h| <= |a| && a[..|h|] == h
    ensures |h| <= |a + b| && (a + b)[..|h|] == h
  {
    assert (a + b)[..|h|] == a[..|h|];
  }

  /** Putting `x` in front of `a` puts it in front of what `a` starts with. */
  lemma Prefixed(x: string, a: string, h: string)
    requires |h| <= |a| && a[..|h|] == h
    ensures |x + h| <= |x + a| && (x + a)[..|x + h|] == x + h
  {
    assert (x + a)[..|x + h|] == x + a[..|h|];
  }

  /** `a + b` ends with what `b` ends with. */
  lemma Ends(a: string, b: string)
    requires b != []
    ensures (a + b)[|a + b| - 1] == b[|b| - 1]
  {
  }

  /**
   * The output begins with the indentation, `<` and the tag, and never ends with a newline: the
   * caller decides what separates it from what follows.
   */
  lemma RenderFrame(e: Element, indent: nat)
    ensures var r := Render(e, indent);
      var head := Indent(indent) + "<" + e.tag;
      |head| < |r| && r[..|head|] == head && r[|r| - 1] == '>'
  {
    var head := Indent(indent) + "<" + e.tag;
    var start := StartTag(e, indent);
    assert start == head + RenderAttributes(Sort(e.attrib));
    assert Render(e, indent)[..|start|] == start;
  }

  /**
   * The self-closing form is used exactly for elements with neither children nor text (for tags
   * that do not themselves end in `/`).
   */
  lemma SelfClosingIff(e: Element, indent: nat)
    requires e.tag != [] && e.tag[|e.tag| - 1] != '/'
    ensures var r := Render(e, indent);
      (|r| >= 2 && r[|r| - 2..] == "/>") <==> e.children == [] && e.text.None?
  {
    var r := Render(e, indent);
    var start := StartTag(e, indent);
    if e.children == [] && e.text.None? {
      assert r == start + "/>";
      Suffix(start, "/>");
    } else {
      var close := "</" + e.tag + ">";
      var pre := start + ">" + RenderChildren(e.children, |e.children|, indent + 1)
        + (if e.text.Some? then Escape(e.text.value) else "\n" + Indent(indent));
      assert r == pre + close;
      ClosedByTag(pre, e.tag);
    }
  }

  /** Text ending in `</tag>` does not end in `/>` when the tag itself does not end in `/`. */
  lemma ClosedByTag(pre: string, tag: string)
    requires tag != [] && tag[|tag| - 1] != '/'
    ensures var r := pre + ("</" + tag + ">"); !(|r| >= 2 && r[|r| - 2..] == "/>")
  {
    var r := pre + ("</" + tag + ">");
    assert r[|r| - 2] == tag[|tag| - 1];
    assert r[|r| - 2..][0] == r[|r| - 2];
  }

  /** With text, the escaped text comes right before `</tag>`, even after children. */
  lemma CloseAfterText(e: Element, indent: nat)
    requires e.text.Some?
    ensures var r := Render(e, indent);
      var tail := Escape(e.text.value) + "</" + e.tag + ">";
      |tail| <= |r| && r[|r| - |tail|..] == tail
  {
    var body := StartTag(e, indent) + ">" + RenderChildren(e.children, |e.children|, indent + 1);
    var tail := Escape(e.text.value) + "</" + e.tag + ">";
    assert EndTag(e, indent) == tail;
    assert Render(e, indent) == body + tail;
    Suffix(body, tail);
  }

  /** `b` is what `a + b` ends with. */
  lemma Suffix(a: string, b: string)
    ensures |b| <= |a + b| && (a + b)[|a + b| - |b|..] == b
  {
  }

  /** Without text, a parent closes on a new line at its own indentation. */
  lemma CloseOnOwnLine(e: Element, indent: nat)
    requires e.text.None? && e.children != []
    ensures var r := Render(e, indent);
      var tail := "\n" + Indent(indent) + "</" + e.tag + ">";
      |tail| <= |r| && r[|r| - |tail|..] == tail
  {
    var body := StartTag(e, indent) + ">" + RenderChildren(e.children, |e.children|, indent + 1);
    var tail := "\n" + Indent(indent) + "</" + e.tag + ">";
    assert EndTag(e, indent) == tail;
    assert Render(e, indent) == body + tail;
  }

  /** The order in which attributes were set does not show in the output. */
  lemma RenderIgnoresAttributeOrder(e: Element, f: Element, indent: nat)
    requires e.(attrib := f.attrib) == f && multiset(e.attrib) == multiset(f.attrib)
    ensures Render(e, indent) == Render(f, indent)
  {
    SortIgnoresOrder(e.attrib, f.attrib);
  }

  /** Attributes are written in ascending order, with values escaped and names as they are. */
  lemma AttributesInOrder(e: Element, indent: nat)
    ensures var s := Sort(e.attrib);
      && Sorted(s) && multiset(s) == multiset(e.attrib)
      && Render(e, indent)[..|StartTag(e, indent)|] == Indent(indent) + "<" + e.tag + RenderAttributes(s)
  {
    SortSpec(e.attrib);
  }

  lemma Concat3(a: string, b: string, c: string)
    ensures a + b + c == a + (b + c)
  {
  }

  /** One more child written: the output grows by a newline and that child's text. */
  lemma ChildStep(before: string, cs: seq<Element>, k: nat, indent: nat, sofar: string)
    requires k < |cs| && sofar == before + RenderChildren(cs, k, indent)
    ensures sofar + "\n" + Render(cs[k], indent) == before + RenderChildren(cs, k + 1, indent)
  {
    Concat3(before, RenderChildren(cs, k, indent), "\n");
    Concat3(before, RenderChildren(cs, k, indent) + "\n", Render(cs[k], indent));
  }

  /** The sink `oss`: whatever is written to it is appended to what it already holds. */
  class OutputStream {
    var value: string

    constructor()
      ensures value == []
    {
      value := [];
    }

    method Write(s: string)
      modifies this
      ensures value == old(value) + s
    {
      value := value + s;
    }
  }

  /** One more attribute written: the output grows by that attribute. */
  lemma AttributeStep(attrs: seq<(string, string)>, k: nat)
    requires k < |attrs|
    ensures RenderAttributes(attrs[..k + 1])
      == RenderAttributes(attrs[..k]) + (" " + attrs[k].0 + "=\"" + Escape(attrs[k].1) + "\"")
  {
    assert attrs[..k + 1][..k] == attrs[..k];
  }

  /** The loop over the sorted attributes: each one as ` name="escaped value"`. */
  method WriteAttributes(oss: OutputStream, attrs: seq<(string, string)>)
    modifies oss
    ensures oss.value == old(oss.value) + RenderAttributes(attrs)
  {
    var k := 0;
    while k < |attrs|
      invariant k <= |attrs|
      invariant oss.value == old(oss.value) + RenderAttributes(attrs[..k])
      decreases |attrs| - k
    {
      AttributeStep(attrs, k);
      oss.Write(" " + attrs[k].0 + "=\"" + Escape(attrs[k].1) + "\"");
      k := k + 1;
    }
    assert attrs[..|attrs|] == attrs;
  }

  /** The loop over the children: each one after a newline, one level deeper. */
  method WriteChildren(oss: OutputStream, cs: seq<Element>, indent: nat)
    modifies oss
    ensures oss.value == old(oss.value) + RenderChildren(cs, |cs|, indent)
    decreases cs, 1
  {
    ghost var before := oss.value;
    var k := 0;
    while k < |cs|
      invariant k <= |cs|
      invariant oss.value == before + RenderChildren(cs, k, indent)
      decreases |cs| - k
    {
      WriteChild(oss, before, cs, k, indent);
      k := k + 1;
    }
  }

  /** One turn of that loop: a newline, then the `k`-th child. */
  method WriteChild(oss: OutputStream, ghost before: string, cs: seq<Element>, k: nat, indent: nat)
    requires k < |cs| && oss.value == before + RenderChildren(cs, k, indent)
    modifies oss
    ensures oss.value == before + RenderChildren(cs, k + 1, indent)
    decreases cs, 0
  {
    ghost var sofar := oss.value;
    oss.Write("\n");
    WritePrettyXMLElement(oss, cs[k], indent);
    ChildStep(before, cs, k, indent, sofar);
  }

  /** The ending after the children: the escaped text or a newline and the indent, then `</tag>`. */
  method WriteEnd(oss: OutputStream, e: Element, indent: nat)
    modifies oss
    ensures oss.value == old(oss.value) + EndTag(e, indent)
  {
    ghost var before := oss.value;
    ghost var closing := if e.text.Some? then Escape(e.text.value) else "\n" + Indent(indent);
    if e.text.Some? {
      oss.Write(Escape(e.text.value));
    }
    if e.text.None? {
      oss.Write("\n" + Indent(indent));
    }
    oss.Write("</" + e.tag + ">");
    Concat3(before, closing, "</" + e.tag + ">");
  }

  /** Writes `e` to `oss` piece by piece, as the Python function does; the result is `Render`. */
  method WritePrettyXMLElement(oss: OutputStream, e: Element, indent: nat)
    modifies oss
    ensures oss.value == old(oss.value) + Render(e, indent)
    decreases e
  {
    ghost var before := oss.value;
    oss.Write(Indent(indent) + "<" + e.tag);
    WriteAttributes(oss, Sort(e.attrib));
    ghost var start := StartTag(e, indent);
    assert oss.value == before + start;
    if |e.children| == 0 && e.text.None? {
      oss.Write("/>");
      assert Render(e, indent) == start + "/>";
      return;
    }
    oss.Write(">");
    WriteChildren(oss, e.children, indent + 1);
    ghost var body := start + ">" + RenderChildren(e.children, |e.children|, indent + 1);
    Concat3(before, start, ">");
    Concat3(before, start + ">", RenderChildren(e.children, |e.children|, indent + 1));
    assert oss.value == before + body;
    WriteEnd(oss, e, indent);
    Concat3(before, body, EndTag(e, indent));
    assert Render(e, indent) == body + EndTag(e, indent);
  }
}
