/**
 * `XmlFactory`: a handle on one element of a shared element tree. Indexing it with a path
 * obtains (and if need be creates) the element the path names; assigning to it sets that
 * element's text, or one of its attributes when the path ends in `@name`. Every handle it hands
 * out works on the same tree.
 *
 * The tree is held by a `Document`; a handle is the document together with the position of its
 * element. The library only ever appends children, so a position, once valid, keeps naming the
 * same element for as long as the tree lives.
 */
module Factory {
  import opened Wrappers
  import opened Text
  import opened Tree
  import opened Paths
  import opened OrderedMaps
  import opened PrettyXml
  import opened DictConversion

  /** The exceptions the factory raises. */
  datatype Error =
    | TypeError(message: string)
    | AssertionError(message: string)
    | ValueError

  /** What the constructor can be handed: a tag name, an element, or anything else. */
  datatype RootArg =
    | TagName(tag: string)
    | RootElement(element: Element)
    | Other(typeName: string)

  const HEADER := "<?xml version=\"1.0\" ?>\n"

  const AT_MESSAGE := "The \"at\" (@) is used for attribute definitions"

  /** The root a factory starts from, or the `TypeError` it refuses the argument with. */
  function NewRoot(arg: RootArg): (r: Result<Element, Error>)
    ensures arg.TagName? ==>
      r.Ok? && r.value.tag == arg.tag && r.value.attrib == [] && r.value.children == [] && r.value.text.None?
    ensures arg.TagName? ==> AllUnique(r.value)
    ensures arg.RootElement? ==> r == Ok(arg.element)
    ensures arg.Other? <==> r.Err?
    ensures arg.Other? ==> r.error == TypeError("Unknown root_element parameter type: " + arg.typeName)
  {
    match arg
    case TagName(tag) => Ok(NewElement(tag))
    case RootElement(e) => Ok(e)
    case Other(typeName) => Err(TypeError("Unknown root_element parameter type: " + typeName))
  }

  /** Where an assignment goes: the text of the element a path names, or one of its attributes. */
  datatype Target =
    | TextOf(path: string)
    | AttributeOf(path: string, attr: string)

  /**
   * `name.rsplit('@')` unpacked into two names: a name with no `@` is a path, a name with one
   * `@` is a path and an attribute name, and a name with more cannot be unpacked.
   */
  function ParseTarget(name: string): (r: Result<Target, Error>)
    ensures r.Err? <==> Count(name, '@') >= 2
    ensures r.Err? ==> r.error == ValueError
    ensures r.Ok? && r.value.TextOf? ==> r.value.path == name && '@' !in name
    ensures r.Ok? && r.value.AttributeOf? ==>
      && name == r.value.path + "@" + r.value.attr
      && '@' !in r.value.path && '@' !in r.value.attr
  {
    CountZero(name, '@');
    var parts := Split(name, '@');
    if |parts| == 1 then
      Ok(TextOf(name))
    else if |parts| == 2 then
      assert Join(parts, '@') == parts[0] + ['@'] + Join(parts[1..], '@');
      assert parts[1] in parts;
      Ok(AttributeOf(parts[0], parts[1]))
    else Err(ValueError)
  }

  /** The path part of a name that parses: what `_obtain_element` is handed. */
  function TargetPath(t: Target): string
  {
    match t
    case TextOf(path) => path
    case AttributeOf(path, _) => path
  }

  /**
   * `handle[name] = value` on the tree `root` through the handle at `at`: the new tree and the
   * position of the element the returned handle holds.
   */
  function Assign(root: Element, at: seq<nat>, name: string, value: string): (r: Result<(Element, seq<nat>), Error>)
    requires IsPos(root, at)
    ensures r.Err? <==> Count(name, '@') >= 2
    ensures r.Ok? ==> IsPos(r.value.0, r.value.1) && at <= r.value.1
  {
    match ParseTarget(name)
    case Err(e) => Err(e)
    case Ok(target) =>
      var (t, p) := Resolve(root, at, Segments(TargetPath(target)));
      var old_ := At(t, p);
      var new_ := match target
        case TextOf(_) => old_.(text := Some(value))
        case AttributeOf(_, attr) => old_.(attrib := Put(old_.attrib, attr, value));
      Ok((ReplaceAt(t, p, new_), p))
  }

  /** `handle[name]`: the tree after obtaining the element, and its position. */
  function Obtain(root: Element, at: seq<nat>, name: string): (r: Result<(Element, seq<nat>), Error>)
    requires IsPos(root, at)
    ensures r.Err? <==> '@' in name
    ensures r.Err? ==> r.error == AssertionError(AT_MESSAGE)
    ensures r.Ok? ==> IsPos(r.value.0, r.value.1) && at <= r.value.1 && Grows(root, r.value.0)
  {
    if '@' in name then Err(AssertionError(AT_MESSAGE))
    else
      ResolveGrows(root, at, Segments(name));
      Ok(Resolve(root, at, Segments(name)))
  }

  /** What `print_` writes and `get_contents` returns: the optional declaration, then the tree. */
  function Contents(root: Element, xmlHeader: bool): (r: string)
    ensures xmlHeader ==> |HEADER| < |r| && r[..|HEADER|] == HEADER && r[|HEADER|] == '<'
    ensures !xmlHeader ==> |r| > 0 && r[0] == '<'
    ensures r[|r| - 1] == '>'
  {
    RenderFrame(root, 0);
    var body := Render(root, 0);
    assert body[0] == '<';
    (if xmlHeader then HEADER else "") + body
  }

  /** After the optional declaration comes the root's start tag: `<` and the root's tag. */
  lemma ContentsStart(root: Element, xmlHeader: bool)
    ensures var r, h := Contents(root, xmlHeader), (if xmlHeader then HEADER else "") + "<" + root.tag;
      |h| < |r| && r[..|h|] == h
  {
    RenderFrame(root, 0);
    var decl := if xmlHeader then HEADER else "";
    var head := Indent(0) + "<" + root.tag;
    assert head == "<" + root.tag;
    Prefixed(decl, Render(root, 0), head);
  }

  /**
   * Assignments keep every attribute dictionary free of repeated names: setting an attribute
   * that is already there overwrites it in place.
   */
  lemma AssignKeepsUnique(root: Element, at: seq<nat>, name: string, value: string)
    requires IsPos(root, at) && AllUnique(root)
    ensures Assign(root, at, name, value).Ok? ==> AllUnique(Assign(root, at, name, value).value.0)
  {
    var parsed := ParseTarget(name);
    if parsed.Ok? {
      var target := parsed.value;
      var (t, p) := Resolve(root, at, Segments(TargetPath(target)));
      ResolveKeepsUnique(root, at, Segments(TargetPath(target)));
      AllUniqueAt(t, p);
      var old_ := At(t, p);
      if target.AttributeOf? {
        PutUnique(old_.attrib, target.attr, value);
      }
      var new_ := match target
        case TextOf(_) => old_.(text := Some(value))
        case AttributeOf(_, attr) => old_.(attrib := Put(old_.attrib, attr, value));
      ReplaceKeepsUnique(t, p, new_);
    }
  }

  /** Obtaining an element keeps every attribute dictionary free of repeated names. */
  lemma ObtainKeepsUnique(root: Element, at: seq<nat>, name: string)
    requires IsPos(root, at) && AllUnique(root)
    ensures Obtain(root, at, name).Ok? ==> AllUnique(Obtain(root, at, name).value.0)
  {
    ResolveKeepsUnique(root, at, Segments(name));
  }

  /** With `@`, the value lands under the attribute name; the text and other attributes stay. */
  lemma AssignAttribute(root: Element, at: seq<nat>, path: string, attr: string, value: string)
    requires IsPos(root, at) && '@' !in path && '@' !in attr
    ensures var r := Assign(root, at, path + "@" + attr, value);
      var (t, p) := Resolve(root, at, Segments(path));
      && r.Ok? && r.value.1 == p
      && At(r.value.0, p).tag == At(t, p).tag
      && At(r.value.0, p).text == At(t, p).text
      && At(r.value.0, p).children == At(t, p).children
      && Get(At(r.value.0, p).attrib, attr) == Some(value)
      && (forall k :: k != attr ==> Get(At(r.value.0, p).attrib, k) == Get(At(t, p).attrib, k))
  {
    TargetOfAttribute(path, attr);
  }

  /** The name `path@attr` parses back into its two halves. */
  lemma TargetOfAttribute(path: string, attr: string)
    requires '@' !in path && '@' !in attr
    ensures ParseTarget(path + "@" + attr) == Ok(AttributeOf(path, attr))
  {
    var name := path + "@" + attr;
    assert Join([path, attr], '@') == name;
    SplitJoin([path, attr], '@');
  }

  /** Without `@`, the value becomes the element's text; its attributes stay. */
  lemma AssignText(root: Element, at: seq<nat>, path: string, value: string)
    requires IsPos(root, at) && '@' !in path
    ensures var r := Assign(root, at, path, value);
      var (t, p) := Resolve(root, at, Segments(path));
      && r.Ok? && r.value.1 == p
      && At(r.value.0, p) == At(t, p).(text := Some(value))
  {
    CountZero(path, '@');
  }

  /**
   * Only the target element changes, beyond the children the walk appends: every other element
   * that existed keeps its tag, attributes and text, and one off the walked path is untouched.
   */
  lemma AssignFrame(root: Element, at: seq<nat>, name: string, value: string, q: seq<nat>)
    requires IsPos(root, at) && IsPos(root, q) && Count(name, '@') < 2
    ensures var r := Assign(root, at, name, value);
      && r.Ok? && IsPos(r.value.0, q)
      && (!(q <= r.value.1) ==> At(r.value.0, q) == At(root, q))
      && (q != r.value.1 ==>
            At(r.value.0, q).tag == At(root, q).tag
            && At(r.value.0, q).attrib == At(root, q).attrib
            && At(r.value.0, q).text == At(root, q).text)
  {
    var target := ParseTarget(name).value;
    var segs := Segments(TargetPath(target));
    var (t, p) := Resolve(root, at, segs);
    var n := At(Assign(root, at, name, value).value.0, p);
    assert Assign(root, at, name, value).value.0 == ReplaceAt(t, p, n);
    assert n.children == At(t, p).children;
    ResolveGrows(root, at, segs);
    if !(q <= p) {
      ResolveOffPath(root, at, segs, q);
    }
    ReplaceTargetFrame(root, t, p, n, q);
  }

  /** The frame of the one replacement an assignment makes, on a tree grown from `root`. */
  lemma ReplaceTargetFrame(root: Element, t: Element, p: seq<nat>, n: Element, q: seq<nat>)
    requires Grows(root, t) && IsPos(t, p) && IsPos(root, q) && n.children == At(t, p).children
    requires !(q <= p) ==> IsPos(t, q) && At(t, q) == At(root, q)
    ensures IsPos(ReplaceAt(t, p, n), q)
    ensures !(q <= p) ==> At(ReplaceAt(t, p, n), q) == At(root, q)
    ensures q != p ==>
      At(ReplaceAt(t, p, n), q).tag == At(root, q).tag
      && At(ReplaceAt(t, p, n), q).attrib == At(root, q).attrib
      && At(ReplaceAt(t, p, n), q).text == At(root, q).text
  {
    GrowsAt(root, t, q);
    if !(q <= p) {
      if p <= q {
        assert p + q[|p|..] == q;
        ReplaceKeepsBelow(t, p, n, q[|p|..]);
      } else {
        ReplaceFrame(t, p, n, q);
      }
    } else if q != p {
      ReplaceKeepsAbove(t, p, n, q);
    } else {
      ReplaceKeepsPositions(t, p, n, q);
    }
  }

  /** `sub['@class'] = v`: the empty path is the handle's own element, and nothing is created. */
  lemma AssignOwnAttribute(root: Element, at: seq<nat>, attr: string, value: string)
    requires IsPos(root, at) && '@' !in attr
    ensures var r := Assign(root, at, "@" + attr, value);
      && r.Ok? && r.value.1 == at
      && r.value.0 == ReplaceAt(root, at, At(root, at).(attrib := Put(At(root, at).attrib, attr, value)))
  {
    TargetOfAttribute("", attr);
    assert "" + "@" + attr == "@" + attr;
  }

  /** Obtaining a `+`-free path a second time changes nothing and returns the same element. */
  lemma ObtainIdempotent(root: Element, at: seq<nat>, name: string)
    requires IsPos(root, at) && '@' !in name && Unforced(Segments(name))
    ensures var r := Obtain(root, at, name);
      && r.Ok? && IsPos(r.value.0, at)
      && Obtain(r.value.0, at, name) == r
  {
    ResolveIdempotent(root, at, Segments(name));
  }

  /** The element tree every handle of one factory works on. */
  class Document {
    var root: Element

    constructor(root: Element)
      ensures this.root == root
    {
      this.root := root;
    }

    /** `ElementTree.SubElement(parent, tag, attrib=OrderedDict())`: the index of the new child. */
    method SubElement(parent: seq<nat>, tag: string) returns (i: nat)
      requires IsPos(root, parent)
      modifies this
      ensures root == AppendAt(old(root), parent, NewElement(tag))
      ensures i == |At(old(root), parent).children|
    {
      i := |At(root, parent).children|;
      root := AppendAt(root, parent, NewElement(tag));
    }

    /** `element.attrib[name] = value`. */
    method SetAttribute(element: seq<nat>, name: string, value: string)
      requires IsPos(root, element)
      modifies this
      ensures root == ReplaceAt(old(root), element,
        At(old(root), element).(attrib := Put(At(old(root), element).attrib, name, value)))
    {
      var e := At(root, element);
      root := ReplaceAt(root, element, e.(attrib := Put(e.attrib, name, value)));
    }

    /** `element.text = value`. */
    method SetText(element: seq<nat>, value: string)
      requires IsPos(root, element)
      modifies this
      ensures root == ReplaceAt(old(root), element, At(old(root), element).(text := Some(value)))
    {
      root := ReplaceAt(root, element, At(root, element).(text := Some(value)));
    }
  }

  class XmlFactory {
    const doc: Document
    /** The position of `self.root` in the document. */
    const at: seq<nat>

    ghost predicate Valid()
      reads doc
    {
      IsPos(doc.root, at)
    }

    /** `self.root`. */
    function Root(): Element
      reads doc
      requires Valid()
    {
      At(doc.root, at)
    }

    /** `XmlFactory(tag)`: a new tree holding only a root element with that tag. */
    constructor(tag: string)
      ensures Valid() && fresh(doc) && at == []
      ensures doc.root == NewElement(tag)
    {
      doc := new Document(NewElement(tag));
      at := [];
    }

    /** `XmlFactory(element)`: a factory over an existing tree, which it owns from then on. */
    constructor FromElement(element: Element)
      ensures Valid() && fresh(doc) && at == [] && doc.root == element
    {
      doc := new Document(element);
      at := [];
    }

    /** `XmlFactory(result)` as the indexing operators return it: same tree, another element. */
    constructor Handle(doc: Document, at: seq<nat>)
      requires IsPos(doc.root, at)
      ensures Valid() && this.doc == doc && this.at == at
    {
      this.doc := doc;
      this.at := at;
    }

    /** `XmlFactory(root_element)` with the type test the constructor makes. */
    static method Create(arg: RootArg) returns (r: Result<XmlFactory, Error>)
      ensures NewRoot(arg).Err? ==> r == Err(NewRoot(arg).error)
      ensures NewRoot(arg).Ok? ==>
        r.Ok? && fresh(r.value.doc) && r.value.Valid() && r.value.at == []
        && r.value.doc.root == NewRoot(arg).value
    {
      if arg.TagName? {
        var f := new XmlFactory(arg.tag);
        r := Ok(f);
      } else if arg.RootElement? {
        var f := new XmlFactory.FromElement(arg.element);
        r := Ok(f);
      } else {
        r := Err(TypeError("Unknown root_element parameter type: " + arg.typeName));
      }
    }

    /**
     * `_obtain_element(name)`: walks the parts of the path from this handle's element, reusing
     * the first child with the part's tag or appending one, and always appending for a part
     * that ends in `+`.
     */
    method ObtainElement(name: string) returns (result: seq<nat>)
      requires Valid() && PlainPath(name)
      modifies doc
      ensures Resolve(old(doc.root), at, Segments(name)) == (doc.root, result)
    {
      if name == "" {
        return at;
      }
      var parts := Split(name, '/');
      ghost var segs := Segments(name);
      var parent := at;
      var i := 0;
      while i < |parts|
        invariant i <= |parts|
        invariant IsPos(doc.root, parent)
        invariant Resolve(doc.root, parent, segs[i..]) == Resolve(old(doc.root), at, segs)
        decreases |parts| - i
      {
        ghost var before := doc.root;
        var child := StepInto(parent, parts[i]);
        assert segs[i] == ParseSegment(parts[i]);
        ResolveNext(before, parent, segs, i);
        parent := parent + [child];
        i := i + 1;
      }
      assert segs[|parts|..] == [];
      result := parent;
    }

    /**
     * One turn of that walk from the element at `parent`: a part ending in `+` appends a child
     * with the rest of the part as its tag; any other part finds the first child with its tag,
     * or appends one when there is none.
     */
    method StepInto(parent: seq<nat>, part: string) returns (child: nat)
      requires IsPos(doc.root, parent)
      modifies doc
      ensures (doc.root, child) == Step(old(doc.root), parent, ParseSegment(part))
      ensures IsPos(doc.root, parent + [child])
    {
      if |part| > 0 && part[|part| - 1] == '+' {
        child := doc.SubElement(parent, part[..|part| - 1]);
      } else {
        var found := FirstWithTag(At(doc.root, parent).children, part);
        if found.None? {
          child := doc.SubElement(parent, part);
        } else {
          child := found.value;
        }
      }
    }

    /** `self[name] = value`: a handle on the element whose text or attribute was set. */
    method SetItem(name: string, value: string) returns (r: Result<XmlFactory, Error>)
      requires Valid()
      requires ParseTarget(name).Ok? ==> PlainPath(TargetPath(ParseTarget(name).value))
      modifies doc
      ensures Assign(old(doc.root), at, name, value).Err? ==>
        r == Err(Assign(old(doc.root), at, name, value).error) && doc.root == old(doc.root)
      ensures Assign(old(doc.root), at, name, value).Ok? ==>
        && r.Ok? && fresh(r.value) && r.value.doc == doc && r.value.Valid()
        && (doc.root, r.value.at) == Assign(old(doc.root), at, name, value).value
      ensures r.Ok? ==> r.value.doc == doc && r.value.Valid()
    {
      CountZero(name, '@');
      if '@' in name {
        var parts := Split(name, '@');
        if |parts| != 2 {
          return Err(ValueError);
        }
        var elementName, attrName := parts[0], parts[1];
        var result := ObtainElement(elementName);
        doc.SetAttribute(result, attrName, value);
        var handle := new XmlFactory.Handle(doc, result);
        r := Ok(handle);
      } else {
        var result := ObtainElement(name);
        doc.SetText(result, value);
        var handle := new XmlFactory.Handle(doc, result);
        r := Ok(handle);
      }
    }

    /** `self[name]`: a handle on the element the path names, created if need be. */
    method GetItem(name: string) returns (r: Result<XmlFactory, Error>)
      requires Valid()
      requires '@' !in name ==> PlainPath(name)
      modifies doc
      ensures Obtain(old(doc.root), at, name).Err? ==>
        r == Err(Obtain(old(doc.root), at, name).error) && doc.root == old(doc.root)
      ensures Obtain(old(doc.root), at, name).Ok? ==>
        && r.Ok? && fresh(r.value) && r.value.doc == doc && r.value.Valid()
        && (doc.root, r.value.at) == Obtain(old(doc.root), at, name).value
      ensures r.Ok? ==> r.value.doc == doc && r.value.Valid()
    {
      if '@' in name {
        return Err(AssertionError(AT_MESSAGE));
      }
      var result := ObtainElement(name);
      var handle := new XmlFactory.Handle(doc, result);
      r := Ok(handle);
    }

    /** `print_(oss, xml_header)`: the declaration if asked for, then this handle's element. */
    method Print(oss: OutputStream, xmlHeader: bool)
      requires Valid()
      modifies oss
      ensures oss.value == old(oss.value) + Contents(Root(), xmlHeader)
    {
      ghost var before := oss.value;
      if xmlHeader {
        oss.Write(HEADER);
      }
      WritePrettyXMLElement(oss, At(doc.root, at), 0);
      Concat3(before, if xmlHeader then HEADER else "", Render(Root(), 0));
    }

    /** `get_contents(xml_header)`: what `print_` writes, collected in a fresh buffer. */
    method GetContents(xmlHeader: bool) returns (s: string)
      requires Valid()
      ensures s == Contents(Root(), xmlHeader)
    {
      var oss := new OutputStream();
      Print(oss, xmlHeader);
      s := oss.value;
    }

    /** `as_dict()`: the conversion of this handle's element. */
    function AsDict(): (d: Value)
      reads doc
      requires Valid()
      ensures d.Dict?
    {
      ToDict(Root())
    }
  }
}
