/** The documents the library's own examples build, worked through the model. */
module Scenarios {
  import opened Wrappers
  import opened Tree
  import opened PrettyXml
  import opened DictConversion
  import opened Factory
  import opened Sorting
  import opened Escaping
  import opened Text
  import opened Paths
  import opened OrderedMaps

  /** An attribute value and a text with markup characters in them, written escaped. */
  lemma EscapedOutput()
    ensures Render(Element("root", [("name", "<no>")], [], Some("> 3")), 0)
      == "<root name=\"&lt;no&gt;\">&gt; 3</root>"
  {
    var e := Element("root", [("name", "<no>")], [], Some("> 3"));
    assert Sort(e.attrib) == e.attrib;
    assert Render(e, 0) == StartTag(e, 0) + ">" + RenderChildren(e.children, 0, 1) + EndTag(e, 0);
    assert Indent(0) == "";
    assert RenderAttributes(e.attrib) == RenderAttributes([]) + RenderAttribute(("name", "<no>"));
    assert EndTag(e, 0) == Escape("> 3") + ("</" + "root" + ">");
    EscapeValueExample();
    EscapeTextExample();
    GlueEscapedOutput(Escape("<no>"), Escape("> 3"));
  }

  lemma GlueEscapedOutput(value: string, text: string)
    requires value == "&lt;no&gt;" && text == "&gt; 3"
    ensures "" + "<" + "root" + ([] + (" " + "name" + "=\"" + value + "\"")) + ">" + [] + (text + ("</" + "root" + ">"))
      == "<root name=\"&lt;no&gt;\">&gt; 3</root>"
  {
  }

  lemma EscapeValueExample()
    ensures Escape("<no>") == "&lt;no&gt;"
  {
    assert EscapeEach("<no>") == "&lt;" + EscapeEach("no>");
    assert EscapeEach("no>") == "n" + EscapeEach("o>");
    assert EscapeEach("o>") == "o" + EscapeEach(">");
    assert EscapeEach(">") == "&gt;" + EscapeEach("");
    EscapeLiteral("<no>", "&lt;no&gt;");
  }

  lemma EscapeTextExample()
    ensures Escape("> 3") == "&gt; 3"
  {
    assert EscapeEach("> 3") == "&gt;" + EscapeEach(" 3");
    assert EscapeEach(" 3") == " " + EscapeEach("3");
    assert EscapeEach("3") == "3" + EscapeEach("");
    EscapeLiteral("> 3", "&gt; 3");
  }

  /** The escaping of a literal, character by character. */
  lemma EscapeLiteral(s: string, r: string)
    requires r == EscapeEach(s)
    ensures Escape(s) == r
  {
    EscapeIsPerCharacter(s);
  }

  /** A one-part path with no `+` names one child, reused if present. */
  lemma OnePart(name: string)
    requires name != [] && '/' !in name && name[|name| - 1] != '+'
    ensures Segments(name) == [Segment(name, false)]
  {
    SplitJoin([name], '/');
    assert Join([name], '/') == name;
  }

  /**
   * `triggers = factory['triggers']` then `triggers['@class'] = 'vector'`: the attribute lands on
   * the element the handle holds, and the document is written with it in the self-closing form.
   */
  lemma TriggerClass()
    ensures Obtain(NewElement("root"), [], "triggers")
      == Ok((Element("root", [], [NewElement("triggers")], None), [0]))
    ensures Assign(Element("root", [], [NewElement("triggers")], None), [0], "@class", "vector")
      == Ok((Element("root", [], [Element("triggers", [("class", "vector")], [], None)], None), [0]))
    ensures Contents(Element("root", [], [Element("triggers", [("class", "vector")], [], None)], None), false)
      == "<root>\n" + "  <triggers class=\"vector\"/>" + "\n</root>"
  {
    TriggerObtain();
    TriggerAssign();
    TriggerDocument();
  }

  lemma TriggerObtain()
    ensures Obtain(NewElement("root"), [], "triggers")
      == Ok((Element("root", [], [NewElement("triggers")], None), [0]))
  {
    var name := "triggers";
    assert '@' !in name && '/' !in name && name[|name| - 1] != '+';
    ObtainFirstChild("root", name);
  }

  /** On a fresh root, a one-part path makes the root's first child. */
  lemma ObtainFirstChild(tag: string, name: string)
    requires name != [] && '@' !in name && '/' !in name && name[|name| - 1] != '+'
    ensures Obtain(NewElement(tag), [], name) == Ok((Element(tag, [], [NewElement(name)], None), [0]))
  {
    var root := NewElement(tag);
    OnePart(name);
    var seg := Segment(name, false);
    var t1 := Element(tag, [], [NewElement(name)], None);
    assert AppendAt(root, [], NewElement(name)) == t1;
    assert Step(root, [], seg) == (t1, 0);
    assert [seg][1..] == [] && [] + [0] == [0];
    assert Resolve(root, [], [seg]) == Resolve(t1, [0], []);
  }

  lemma TriggerAssign()
    ensures Assign(Element("root", [], [NewElement("triggers")], None), [0], "@class", "vector")
      == Ok((Element("root", [], [Element("triggers", [("class", "vector")], [], None)], None), [0]))
  {
    var t1 := Element("root", [], [NewElement("triggers")], None);
    AssignOwnAttribute(t1, [0], "class", "vector");
    var trig := Element("triggers", [("class", "vector")], [], None);
    assert ReplaceAt(t1, [0], trig) == Element("root", [], [trig], None);
  }

  lemma TriggerDocument()
    ensures Contents(Element("root", [], [Element("triggers", [("class", "vector")], [], None)], None), false)
      == "<root>\n" + "  <triggers class=\"vector\"/>" + "\n</root>"
  {
    var trig := Element("triggers", [("class", "vector")], [], None);
    var t2 := Element("root", [], [trig], None);
    TriggerTag(trig);
    assert Sort(t2.attrib) == [];
    assert RenderChildren(t2.children, 1, 1) == RenderChildren(t2.children, 0, 1) + "\n" + Render(trig, 1);
    assert Render(t2, 0) == StartTag(t2, 0) + ">" + RenderChildren(t2.children, 1, 1) + EndTag(t2, 0);
    GlueRootDocument(Render(trig, 1));
  }

  lemma TriggerTag(trig: Element)
    requires trig == Element("triggers", [("class", "vector")], [], None)
    ensures Render(trig, 1) == "  <triggers class=\"vector\"/>"
  {
    assert Sort(trig.attrib) == trig.attrib;
    ClassAttribute();
    assert Indent(1) == "  " + Indent(0);
    assert Render(trig, 1) == StartTag(trig, 1) + "/>";
    GlueTriggerTag(Render(trig, 1));
  }

  lemma ClassAttribute()
    ensures RenderAttributes([("class", "vector")]) == [] + (" " + "class" + "=\"" + "vector" + "\"")
  {
    EscapePlain("vector");
    assert RenderAttributes([("class", "vector")]) == RenderAttributes([]) + RenderAttribute(("class", "vector"));
  }

  lemma GlueTriggerTag(child: string)
    requires child == "  " + "" + "<" + "triggers" + ([] + (" " + "class" + "=\"" + "vector" + "\"")) + "/>"
    ensures child == "  <triggers class=\"vector\"/>"
  {
    assert "  " + "" + "<" + "triggers" == "  <triggers";
    assert [] + (" " + "class" + "=\"" + "vector" + "\"") == " class=\"vector\"";
    assert "  <triggers" + " class=\"vector\"" == "  <triggers class=\"vector\"";
  }

  lemma GlueRootDocument(child: string)
    ensures "" + "" + "<" + "root" + [] + ">" + ([] + "\n" + child) + ("\n" + "" + ("</" + "root" + ">"))
      == "<root>\n" + child + "\n</root>"
  {
    assert "" + "" + "<" + "root" + [] + ">" == "<root>";
    assert "\n" + "" + ("</" + "root" + ">") == "\n</root>";
    assert [] + "\n" + child == "\n" + child;
    assert "<root>" + ("\n" + child) == "<root>\n" + child;
  }

  /** A childless element holding only text. */
  function Leaf(tag: string, text: string): (e: Element)
    ensures e.children == [] && e.attrib == [] && e.text == Some(text)
  {
    Element(tag, [], [], Some(text))
  }

  /**
   * `{"login": "Bravo", "name": "Alpha"}` from `<user><name>Alpha</name><login>Bravo</login></user>`:
   * two text children with different tags become two string entries, in document order.
   */
  lemma SimplestDict()
    ensures ToDict(Element("user", [], [Leaf("name", "Alpha"), Leaf("login", "Bravo")], None))
      == Dict([("name", Str("Alpha")), ("login", Str("Bravo"))])
  {
    assert "name" != "login";
    TwoLeavesDict("user", "name", "Alpha", "login", "Bravo");
  }

  /**
   * `{"login": "Bravo", "name": "Alpha", "location": {"city": "Charlie"}}` from `<user>` with the
   * `name` and `login` texts and a `location` holding one `city`: the single-child `location` is a
   * record and nests as a dictionary of its own.
   */
  lemma SimpleDict()
    ensures ToDict(Element("user", [], [Leaf("name", "Alpha"), Leaf("login", "Bravo"), LocationElement()], None))
      == Dict([("name", Str("Alpha")), ("login", Str("Bravo")), ("location", Dict([("city", Str("Charlie"))]))])
  {
    var loc := LocationElement();
    var cs := [Leaf("name", "Alpha"), Leaf("login", "Bravo"), loc];
    LocationValue();
    assert AsValues([]) == [];
    assert cs[1..][1..][1..] == [];
    assert Members(cs[1..][1..]) == [("location", MemberValue(loc))] + Members(cs[1..][1..][1..]);
    assert Members(cs[1..]) == [("login", Str("Bravo"))] + Members(cs[1..][1..]);
    assert Members(cs) == [("name", Str("Alpha")), ("login", Str("Bravo")), ("location", Dict([("city", Str("Charlie"))]))];
    PutAllFresh(Members(cs));
  }

  /** `<location><city>Charlie</city></location>` from test_simple. */
  function LocationElement(): (e: Element)
    ensures e.tag == "location" && e.attrib == [] && e.children == [Leaf("city", "Charlie")]
  {
    Element("location", [], [Leaf("city", "Charlie")], None)
  }

  /** The `location` member is the record `{"city": "Charlie"}`. */
  lemma LocationValue()
    ensures MemberValue(LocationElement()) == Dict([("city", Str("Charlie"))])
  {
    var loc := LocationElement();
    RecordBranch(loc);
    assert AsValues([]) == [];
    assert Members(loc.children) == [("city", Str("Charlie"))] + Members(loc.children[1..]);
    PutAllFresh([("city", Str("Charlie"))]);
  }

  lemma TwoLeavesDict(tag: string, a: string, x: string, b: string, y: string)
    requires a != b
    ensures ToDict(Element(tag, [], [Leaf(a, x), Leaf(b, y)], None)) == Dict([(a, Str(x)), (b, Str(y))])
  {
    var cs := [Leaf(a, x), Leaf(b, y)];
    assert AsValues([]) == [];
    assert MemberValue(cs[0]) == Str(x) && MemberValue(cs[1]) == Str(y);
    assert cs[1..][1..] == [];
    assert Members(cs[1..]) == [(b, Str(y))] + Members(cs[1..][1..]);
    assert Members(cs) == [(a, Str(x)), (b, Str(y))];
    PutAllFresh([(a, Str(x)), (b, Str(y))]);
  }

  /**
   * `{"name": ["Alpha", "Bravo", "Charlie"]}` from an `elements` node holding three `name`
   * children: repeated tags become one entry holding the list of their texts.
   */
  lemma RepeatedNamesDict()
    ensures MemberValue(Element("elements", [], [Leaf("name", "Alpha"), Leaf("name", "Bravo"), Leaf("name", "Charlie")], None))
      == Dict([("name", List([Str("Alpha"), Str("Bravo"), Str("Charlie")]))])
  {
    Unpadded("Alpha");
    Unpadded("Bravo");
    Unpadded("Charlie");
    ThreeLeavesList("elements", "name", "Alpha", "Bravo", "Charlie");
  }

  lemma Unpadded(s: string)
    requires s != [] && 'A' <= s[0] <= 'Z' && 'a' <= s[|s| - 1] <= 'z'
    ensures Strip(s) == s
  {
    StripUnpadded(s);
  }

  lemma ThreeLeavesList(tag: string, item: string, x: string, y: string, z: string)
    requires Strip(x) == x && Strip(y) == y && Strip(z) == z
    requires x != [] && y != [] && z != []
    ensures MemberValue(Element(tag, [], [Leaf(item, x), Leaf(item, y), Leaf(item, z)], None))
      == Dict([(item, List([Str(x), Str(y), Str(z)]))])
  {
    var e := Element(tag, [], [Leaf(item, x), Leaf(item, y), Leaf(item, z)], None);
    assert !IsRecord(e);
    var cs := e.children;
    assert HasWords(cs[0]) && HasWords(cs[1]) && HasWords(cs[2]);
    assert AllHaveWords(cs, 1);
    assert AllHaveWords(cs, 2);
    assert AllHaveWords(cs, 3);
    ListOfTexts(cs, 3);
    assert StrippedTexts(cs, 1) == [Str(x)];
    assert StrippedTexts(cs, 2) == [Str(x), Str(y)];
    assert StrippedTexts(cs, 3) == [Str(x), Str(y), Str(z)];
  }
}
