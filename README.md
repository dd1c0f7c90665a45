# xml_factory in Dafny

A model of `XmlFactory`, the small builder that creates XML documents by path, and of the pretty
printer it writes them with.

A factory holds one element of an `ElementTree`. You index it with a path such as
`alpha/bravo+/charlie`:

- the path is split at `/`;
- each part descends into the first child with that tag, and creates the child when none exists;
- a part ending in `+` always appends a new child.

`factory[path]` returns a factory on the element the path leads to. `factory[path] = v` sets that
element's text, and `factory[path@attr] = v` sets one of its attributes. Every factory handed out
works on the same tree.

The document is written out with two spaces of indentation per level:

- attributes come in ascending order, with their values escaped;
- each child goes on a line of its own;
- the element closes with `/>` when it has neither children nor text, with `</tag>` right after
  the text when it has text, and with `</tag>` on a line of its own otherwise.

`as_dict` turns the tree into nested ordered dictionaries, lists and strings. It uses a heuristic
that looks only at an element's first two children. When they share a tag, every child with
children or non-blank text goes into the list, whatever its own tag (`DictConversion.ListBranch`).

The modules:

- `Wrappers`: `Option` and `Result`.
- `Text`: Python's `str.split`, `str.strip()` and `str` ordering.
- `OrderedMaps`: the attribute dictionary and `OrderedDict`, as sequences of distinct names with
  values.
- `Sorting`: `sorted(element.items())`.
- `Tree`: elements, and positions inside a tree.
- `Paths`: the walk `_obtain_element` makes. It is a pure function, `Resolve`, with lemmas on what
  the walk creates and what it reuses.
- `Escaping`: `xml.sax.saxutils.escape` as the three replaces it makes, held to a per-character
  reference and to a decoder.
- `PrettyXml`: `WritePrettyXMLElement` as a method that writes to an `OutputStream`, proved equal
  to the pure `Render`.
- `DictConversion`: `xml_to_dict` and `xml_to_list`.
- `Factory`: the `XmlFactory` class. A shared `Document` holds the tree; a factory is that
  document plus the position of its element.
- `LegacyPrettyXml`: the second, textually identical copy of the pretty printer at the top of the
  repository.
- `Scenarios`: documents from the library's tests, worked out through the model.

The element tree is a value (`Tree.Element`) held in the one mutable field `Document.root`. The
methods that change it (`SubElement`, `SetAttribute`, `SetText`, `ObtainElement`, `SetItem`,
`GetItem`) modify that document in place, so every handle sees the change, as in Python. The
library only ever appends children. A position, once valid, therefore names the same element for
the life of the tree (`Tree.GrowsAt`, `Paths.ResolveGrows`).

A `"` inside an attribute value is written as it is, inside the `"` that delimit the value,
because `escape` is called with no extra entities (`Escaping.EscapeKeeps`). The model keeps this
behaviour of the source.

## Model

| member | source | states |
|---|---|---|
| Text.Split | zerotk/xml_factory/_xml_factory.py:95 | `name.split('/')` gives one more piece than there are separators; no piece holds the separator; joining the pieces gives the name back |
| Text.SplitJoin | zerotk/xml_factory/_xml_factory.py:58 | splitting undoes joining when no piece holds the separator, so `path + "@" + attr` splits back into its halves |
| Text.SplitNone | zerotk/xml_factory/_xml_factory.py:95 | a path without `/` splits into itself alone |
| Text.SplitFirst | zerotk/xml_factory/_xml_factory.py:95 | a first part without the separator comes off as the first piece, and the rest is split on its own |
| Text.CountZero | zerotk/xml_factory/_xml_factory.py:57 | the count of `@` is zero exactly when `'@' not in name`, so the two tests agree |
| Text.IndexOf | zerotk/xml_factory/_xml_factory.py:95 | the first occurrence of the separator: every earlier character differs from it |
| Text.LeadingSpace | zerotk/xml_factory/_xml_factory.py:165 | the white space `strip()` cuts at the front: everything skipped is white space, and the next character is not |
| Text.TrailingSpace | zerotk/xml_factory/_xml_factory.py:165 | the white space `strip()` cuts at the end: everything cut is white space, and the last character kept is not |
| Text.IsSpace | zerotk/xml_factory/_xml_factory.py:165 | the white space `strip()` cuts includes space, tab, newline and carriage return, and never a letter or digit |
| Text.Strip | zerotk/xml_factory/_xml_factory.py:165 | `text.strip()` neither starts nor ends with white space |
| Text.StripCuts | zerotk/xml_factory/_xml_factory.py:165 | `strip()` cuts only white space, from both ends, and keeps the middle as it is |
| Text.StripUnpadded | zerotk/xml_factory/_xml_factory.py:165-166 | a text that neither starts nor ends with white space is its own `strip()` |
| Text.BelowIrreflexive | zerotk/xml_factory/_pretty_xml.py:60 | `str` order, which `sorted` uses: no string is below itself |
| Text.BelowTransitive | zerotk/xml_factory/_pretty_xml.py:60 | `str` order is transitive |
| Text.BelowTotal | zerotk/xml_factory/_pretty_xml.py:60 | any two distinct strings are ordered one way or the other |
| Text.BelowAsymmetric | zerotk/xml_factory/_pretty_xml.py:60 | no two strings are each below the other |
| OrderedMaps.Names | zerotk/xml_factory/_xml_factory.py:33 | the keys of an ordered dictionary, in insertion order |
| OrderedMaps.Get | zerotk/xml_factory/_xml_factory.py:60 | a lookup finds a value exactly when the key is present |
| OrderedMaps.Put | zerotk/xml_factory/_xml_factory.py:60 | `attrib[k] = v`: k now maps to v, every other key keeps its value, an existing key keeps its place and a new key goes last |
| OrderedMaps.PutHere | zerotk/xml_factory/_xml_factory.py:60 | assigning to the first key replaces its value in place |
| OrderedMaps.PutFurther | zerotk/xml_factory/_xml_factory.py:60 | assigning to a later key leaves the first entry where it is |
| OrderedMaps.PutUnique | zerotk/xml_factory/_xml_factory.py:60 | assignment never duplicates a key |
| OrderedMaps.PutNew | zerotk/xml_factory/_xml_factory.py:60 | a new key is appended at the end |
| OrderedMaps.PutAll | zerotk/xml_factory/_xml_factory.py:190 | `update(ps)`: the keys are those of both; keys not in `ps` keep their values; distinct keys stay distinct |
| OrderedMaps.PutAllGet | zerotk/xml_factory/_xml_factory.py:206 | after `update(ps)` with distinct keys, every key of `ps` holds its value from `ps` |
| OrderedMaps.PutAllLast | zerotk/xml_factory/_xml_factory.py:191-217 | when a key is updated several times, its last value is the one kept |
| OrderedMaps.PutAllFresh | zerotk/xml_factory/_xml_factory.py:186 | `OrderedDict(items)` of distinct keys keeps the items as given, in order |
| OrderedMaps.PutAllPrefix | zerotk/xml_factory/_xml_factory.py:188-190 | an update never moves the keys already there |
| OrderedMaps.UniqueGet | zerotk/xml_factory/_xml_factory.py:60 | in a dictionary with distinct keys, each entry is what its key looks up |
| OrderedMaps.GetPrefix | zerotk/xml_factory/_xml_factory.py:60 | entries added later do not change what an earlier key looks up |
| Sorting.PairAsymmetric | zerotk/xml_factory/_pretty_xml.py:60 | tuple order on `(name, value)` is asymmetric |
| Sorting.PairTransitive | zerotk/xml_factory/_pretty_xml.py:60 | tuple order is transitive |
| Sorting.PairTotal | zerotk/xml_factory/_pretty_xml.py:60 | tuple order is total |
| Sorting.InsertPermutes | zerotk/xml_factory/_pretty_xml.py:60 | inserting one pair adds exactly that pair to the multiset |
| Sorting.InsertSorted | zerotk/xml_factory/_pretty_xml.py:60 | inserting into a sorted list keeps it sorted |
| Sorting.SortSpec | zerotk/xml_factory/_pretty_xml.py:60 | `Sort`'s contract: `sorted(attrib.items())` is ascending and a permutation of the items |
| Sorting.SortedUnique | zerotk/xml_factory/_pretty_xml.py:60 | two sorted permutations of the same items are equal |
| Sorting.SortIgnoresOrder | zerotk/xml_factory/_pretty_xml.py:60 | the sorted items do not depend on the order the attributes were set in |
| Tree.NewElement | zerotk/xml_factory/_xml_factory.py:33 | `Element(tag, attrib=OrderedDict())` has the tag, no attributes, no children and no text |
| Tree.PosExtend | zerotk/xml_factory/_xml_factory.py:101-104 | the position one step further down is the `i`-th child, and exists exactly when there is such a child |
| Tree.PosPrefix | zerotk/xml_factory/_xml_factory.py:104 | every element on the way to an element exists |
| Tree.AppendAt | zerotk/xml_factory/_xml_factory.py:99 | `SubElement(parent, tag)`: the parent gains the child at the end of its children |
| Tree.ReplaceAt | zerotk/xml_factory/_xml_factory.py:60-63 | setting an attribute or text in place: the element at the position is the new one |
| Tree.GrowsReflexive | zerotk/xml_factory/_xml_factory.py:96-104 | a tree grows from itself |
| Tree.GrowsTransitive | zerotk/xml_factory/_xml_factory.py:96-104 | growth composes over the turns of the walk |
| Tree.GrowsAt | zerotk/xml_factory/_xml_factory.py:96-104 | every element of a tree is still there, at the same position, after it grows |
| Tree.AppendGrows | zerotk/xml_factory/_xml_factory.py:99 | `SubElement` only grows the tree |
| Tree.AppendFrame | zerotk/xml_factory/_xml_factory.py:99 | `SubElement` leaves every element that is neither the parent nor above it unchanged |
| Tree.ReplaceFrame | zerotk/xml_factory/_xml_factory.py:60-63 | setting a value leaves every element neither above nor below the target unchanged |
| Tree.ReplaceKeepsPositions | zerotk/xml_factory/_xml_factory.py:60-63 | setting an attribute or text keeps every position valid |
| Tree.AtConcat | zerotk/xml_factory/_xml_factory.py:90 | a walk from a sub-element's root reaches the same element as one from the whole tree |
| Tree.ReplaceSame | zerotk/xml_factory/_xml_factory.py:60-63 | putting back the element already there changes nothing |
| Tree.ReplaceTwice | zerotk/xml_factory/_xml_factory.py:60-63 | of two assignments to one element, the second one counts |
| Tree.AppendBelow | zerotk/xml_factory/_xml_factory.py:99 | appending below a sub-element is appending in that sub-element's subtree |
| Tree.ReplaceKeepsBelow | zerotk/xml_factory/_xml_factory.py:60-63 | setting a value leaves the target's descendants unchanged |
| Tree.ReplaceKeepsAbove | zerotk/xml_factory/_xml_factory.py:60-63 | setting a value leaves the target's ancestors with their tag, attributes, text and number of children |
| Tree.AllUniqueAt | zerotk/xml_factory/_xml_factory.py:60 | in a tree whose attribute dictionaries all have distinct names, every element's subtree has that property too |
| Tree.ReplaceKeepsUnique | zerotk/xml_factory/_xml_factory.py:60-63 | putting an element with distinct attribute names in place keeps every attribute dictionary free of repeated names |
| Tree.AppendKeepsUnique | zerotk/xml_factory/_xml_factory.py:99 | appending such an element keeps every attribute dictionary free of repeated names |
| Tree.AppendIsReplace | zerotk/xml_factory/_xml_factory.py:99 | appending below an element is putting that element back with one more child |
| Paths.ParseSegment | zerotk/xml_factory/_xml_factory.py:97-98 | a part ending in `+` is forced and loses exactly one `+`; any other part is its own tag |
| Paths.Segments | zerotk/xml_factory/_xml_factory.py:91-96 | the empty path has no parts; any other has one part per `/` plus one, each parsed in order |
| Paths.FirstWithTag | zerotk/xml_factory/_xml_factory.py:101-102 | `find(tag)`: the first child with the tag, or none exactly when no child has it |
| Paths.FirstWithTagIs | zerotk/xml_factory/_xml_factory.py:101 | the first matching child is the only answer `find` can give |
| Paths.FirstWithTagStable | zerotk/xml_factory/_xml_factory.py:101 | appending children never changes which child `find` returns |
| Paths.Step | zerotk/xml_factory/_xml_factory.py:97-104 | one turn of the loop leads to an existing child with the part's tag |
| Paths.Resolve | zerotk/xml_factory/_xml_factory.py:90-105 | the walk ends at an existing element one level down per part, below where it started |
| Paths.ResolveNext | zerotk/xml_factory/_xml_factory.py:96-104 | from any part on, the walk takes that part's step, then walks the rest from the child it led to |
| Paths.Lookup | zerotk/xml_factory/_xml_factory.py:101 | a walk with `find` alone, when it succeeds, ends at an existing element one level down per part |
| Paths.ResolveGrows | zerotk/xml_factory/_xml_factory.py:96-104 | the walk only appends elements: every existing element keeps its tag, attributes and text |
| Paths.ResolveKeepsUnique | zerotk/xml_factory/_xml_factory.py:96-104 | the walk creates only elements without attributes, so no attribute dictionary gains a repeated name |
| Paths.ResolveOffPath | zerotk/xml_factory/_xml_factory.py:96-104 | every element off the walked path is untouched, subtree included |
| Paths.ResolveReuses | zerotk/xml_factory/_xml_factory.py:100-101 | where a `+`-free path already exists, the walk creates nothing and ends where `find` leads |
| Paths.LookupStable | zerotk/xml_factory/_xml_factory.py:101 | a path `find` can follow keeps leading to the same element as the tree grows |
| Paths.ResolveEstablishes | zerotk/xml_factory/_xml_factory.py:100-103 | after a `+`-free walk, `find` alone leads along the path to the element returned |
| Paths.ResolveIdempotent | zerotk/xml_factory/_xml_factory.py:100-103 | walking a `+`-free path twice creates elements only the first time and returns the same element |
| Paths.ResolveConcat | zerotk/xml_factory/_xml_factory.py:96-104 | walking `a/b` is walking `a`, then `b` from where `a` ended |
| Paths.ForcedAppends | zerotk/xml_factory/_xml_factory.py:97-99 | a part ending in `+` appends a new element after all existing children |
| Paths.ResolveAgain | zerotk/xml_factory/_xml_factory.py:100-103 | a `+`-free prefix walked once leads to the same element, creating nothing, in any grown tree |
| Paths.ResolveForcedLast | zerotk/xml_factory/_xml_factory.py:96-104 | walking `prefix/name+` is walking the prefix, then appending a `name` element there |
| Paths.ForcedTwice | zerotk/xml_factory/_xml_factory.py:97-99 | two walks of `prefix/name+` each append a `name` child to the element the prefix names |
| Paths.TwoAppended | zerotk/xml_factory/_xml_factory.py:99 | of two children appended to one element, the first stays in place and the second follows it |
| Paths.RepeatedForcedSiblings | zerotk/xml_factory/_xml_factory.py:97-103 | `elements/name+` set twice gives two new `name` siblings side by side, the first still in place |
| Paths.ResolveLocal | zerotk/xml_factory/_xml_factory.py:90 | a walk from a sub-element's factory changes only that element's subtree |
| Paths.StepLocal | zerotk/xml_factory/_xml_factory.py:97-104 | one turn of the loop below a sub-element is that turn in the sub-element's subtree |
| Paths.ResolveFromLeaf | zerotk/xml_factory/_xml_factory.py:99-103 | below an element without children, every part creates an element: the walk builds a chain of new empty elements |
| Paths.CreationContinues | zerotk/xml_factory/_xml_factory.py:101-103 | once one part creates an element, every later part creates one too, as a chain hanging from the first |
| Escaping.ReplaceAllConcat | zerotk/xml_factory/_pretty_xml.py:54 | `ReplaceAll`'s contract: replacing in two halves is replacing in the whole |
| Escaping.ReplaceAbsent | zerotk/xml_factory/_pretty_xml.py:54 | replacing a character that does not occur changes nothing |
| Escaping.ReplaceOne | zerotk/xml_factory/_pretty_xml.py:54 | a replace on one character rewrites it only when it matches |
| Escaping.EscapeIsPerCharacter | zerotk/xml_factory/_pretty_xml.py:54 | `Escape`'s and `ReplaceAll`'s contract: the three sequential replaces (`&`, then `>`, then `<`) equal escaping each character on its own |
| Escaping.EscapeConcat | zerotk/xml_factory/_pretty_xml.py:54 | escaping distributes over concatenation |
| Escaping.EscapeOne | zerotk/xml_factory/_pretty_xml.py:54 | the three replaces on one character give that character's entity, or the character itself |
| Escaping.EscapePlain | zerotk/xml_factory/_pretty_xml.py:54 | text without `&`, `<` or `>` is written as it is |
| Escaping.EscapedHasNoAngles | zerotk/xml_factory/_pretty_xml.py:61 | an escaped value holds no `<` or `>` |
| Escaping.EscapeEachNoAngles | zerotk/xml_factory/_pretty_xml.py:76 | no character's escaped form holds `<` or `>` |
| Escaping.EscapeKeeps | zerotk/xml_factory/_pretty_xml.py:61 | a `"` or `'` is in an escaped value exactly when it is in the value: quotes are not escaped |
| Escaping.EscapeEachKeeps | zerotk/xml_factory/_pretty_xml.py:61 | the per-character reference keeps quotes too |
| Escaping.UnescapeEscape | zerotk/xml_factory/_pretty_xml.py:54 | `Escape`'s round trip: reading the entities back gives the original text |
| Escaping.UnescapeEscapeEach | zerotk/xml_factory/_pretty_xml.py:54 | the round trip holds for the per-character reference |
| Escaping.UnescapeChar | zerotk/xml_factory/_pretty_xml.py:54 | one escaped character reads back as that character, whatever follows |
| Escaping.UnescapeAmp | zerotk/xml_factory/_pretty_xml.py:54 | `&amp;` reads back as `&` |
| Escaping.UnescapeAngle | zerotk/xml_factory/_pretty_xml.py:54 | `&lt;` reads back as `<` and `&gt;` as `>` |
| Escaping.UnescapeOther | zerotk/xml_factory/_pretty_xml.py:54 | any other character reads back as itself |
| PrettyXml.Indent | zerotk/xml_factory/_pretty_xml.py:56-59 | `INDENT * n` is `2n` spaces |
| PrettyXml.Render | zerotk/xml_factory/_pretty_xml.py:40-81 | the output is longer than the indent, `<` and the tag, and ends with `>` |
| PrettyXml.RenderAttributesConcat | zerotk/xml_factory/_pretty_xml.py:60-61 | each attribute is written on its own: two runs of attributes are written as the two one after the other |
| PrettyXml.RenderAttributesShape | zerotk/xml_factory/_pretty_xml.py:60-61 | `RenderAttributes`'s contract: nothing is written for no attributes; otherwise the attributes start with a space and end with the `"` closing the last value |
| PrettyXml.StartTagShape | zerotk/xml_factory/_pretty_xml.py:59-61 | `StartTag`'s contract: the start tag is the indent, `<` and the tag, followed by the attributes; it is exactly that long when the element has no attributes |
| PrettyXml.EndTagShape | zerotk/xml_factory/_pretty_xml.py:74-81 | `EndTag`'s contract: the end is `</tag>`, preceded by the text escaped so that it reads back unchanged, or by a newline and the indent when there is no text |
| PrettyXml.RenderChildrenShape | zerotk/xml_factory/_pretty_xml.py:69-72 | `RenderChildren`'s contract: nothing is written for no children; otherwise the first child comes first on a new line at the children's indent, and the output ends with `>` |
| PrettyXml.RenderFrame | zerotk/xml_factory/_pretty_xml.py:59-81 | the output starts with the indent, `<` and the tag, and never ends with a newline |
| PrettyXml.SelfClosingIff | zerotk/xml_factory/_pretty_xml.py:63-65 | the `/>` form is written exactly for an element with neither children nor text |
| PrettyXml.ClosedByTag | zerotk/xml_factory/_pretty_xml.py:81 | output ending in `</tag>` does not end in `/>` when the tag does not end in `/` |
| PrettyXml.CloseAfterText | zerotk/xml_factory/_pretty_xml.py:75-81 | with text, the escaped text comes right before `</tag>`, after any children |
| PrettyXml.CloseOnOwnLine | zerotk/xml_factory/_pretty_xml.py:79-81 | a parent without text closes on a new line at its own indentation |
| PrettyXml.AttributesInOrder | zerotk/xml_factory/_pretty_xml.py:59-61 | the attributes are written in ascending order, names as they are and values escaped |
| PrettyXml.RenderIgnoresAttributeOrder | zerotk/xml_factory/_pretty_xml.py:60 | the order in which attributes were set does not show in the output |
| PrettyXml.ChildStep | zerotk/xml_factory/_pretty_xml.py:70-72 | each turn of the child loop adds a newline and that child's output |
| PrettyXml.OutputStream.Write | zerotk/xml_factory/_pretty_xml.py:59 | `oss.write(s)` appends `s` to what the stream holds |
| PrettyXml.AttributeStep | zerotk/xml_factory/_pretty_xml.py:60-61 | each turn of the attribute loop adds ` name="escaped value"` for one more attribute |
| PrettyXml.WriteAttributes | zerotk/xml_factory/_pretty_xml.py:60-61 | the attribute loop writes exactly the rendered attributes |
| PrettyXml.WriteChildren | zerotk/xml_factory/_pretty_xml.py:70-72 | the child loop writes exactly the rendered children, each after a newline |
| PrettyXml.WriteChild | zerotk/xml_factory/_pretty_xml.py:71-72 | one turn of the child loop extends the output by one rendered child |
| PrettyXml.WriteEnd | zerotk/xml_factory/_pretty_xml.py:74-81 | the writes after the children append exactly the end: the escaped text or a newline and the indent, then `</tag>` |
| PrettyXml.WritePrettyXMLElement | zerotk/xml_factory/_pretty_xml.py:40-81 | the writes the function makes append exactly `Render(e, indent)` to the stream |
| LegacyPrettyXml.WritePrettyXMLElement | xml_factory/_pretty_xml.py:40-81 | the second copy appends the same text as the first |
| DictConversion.AsValues | zerotk/xml_factory/_xml_factory.py:190 | `dict(element.items())`: the same keys in the same order, each value a string |
| DictConversion.IsRecord | zerotk/xml_factory/_xml_factory.py:195 | children with pairwise distinct tags always make a record |
| DictConversion.ToDict | zerotk/xml_factory/_xml_factory.py:170-218 | `xml_to_dict` always gives a dictionary |
| DictConversion.Members | zerotk/xml_factory/_xml_factory.py:191-217 | one update per child, in document order, keyed by the child's tag |
| DictConversion.MemberAt | zerotk/xml_factory/_xml_factory.py:191-217 | the update for the `i`-th child stores that child's value |
| DictConversion.MemberValue | zerotk/xml_factory/_xml_factory.py:192-217 | a child with children or attributes gives a dictionary; any other gives its raw text as a string, or `None` when it has no text; the two dictionary branches for a child with children are `RecordBranch` and `ListBranch` |
| DictConversion.RecordBranch | zerotk/xml_factory/_xml_factory.py:195-196 | a record member is the child converted as a dictionary of its own, with the child's attributes merged in again after its entries |
| DictConversion.ToList | zerotk/xml_factory/_xml_factory.py:154-168 | `xml_to_list` gives a list of at most one item per child |
| DictConversion.ListItem | zerotk/xml_factory/_xml_factory.py:157-167 | a child with children always adds its conversion, a dictionary exactly when it is a record; a childless child adds nothing exactly when it has no text or only white space, and otherwise adds its stripped text; nothing added is `None` or a blank or padded string |
| DictConversion.ListItems | zerotk/xml_factory/_xml_factory.py:155-168 | the list has at most one item per child |
| DictConversion.Contributors | zerotk/xml_factory/_xml_factory.py:156-167 | the positions of the children that add an item, in increasing order: each one adds an item, and every child that adds one is among them |
| DictConversion.ListItemsFromContributors | zerotk/xml_factory/_xml_factory.py:155-168 | the list holds one item per contributing child, in document order, the `k`-th item being the `k`-th contributor's |
| DictConversion.ListBranch | zerotk/xml_factory/_xml_factory.py:199-206 | a list member has two or more children, the first two sharing a tag; it is the list under the first child's tag, with the member's attributes merged in after it; every child with children or non-blank text is in the list, whatever its tag |
| DictConversion.ListItemsAreItems | zerotk/xml_factory/_xml_factory.py:155-168 | no `None` and no blank or padded string ever gets into the list |
| DictConversion.GetAsValues | zerotk/xml_factory/_xml_factory.py:190 | a key looked up among the converted attributes finds its string |
| DictConversion.DictKeys | zerotk/xml_factory/_xml_factory.py:188-218 | the keys are distinct and are exactly the attribute names and the child tags |
| DictConversion.MemberNames | zerotk/xml_factory/_xml_factory.py:207 | the child updates are keyed by exactly the children's tags |
| DictConversion.AttributesFirst | zerotk/xml_factory/_xml_factory.py:189-190 | the root's attributes come first, in their own order |
| DictConversion.LastSiblingWins | zerotk/xml_factory/_xml_factory.py:191-217 | among siblings with one tag, the last one's value is kept |
| DictConversion.RootAttributeKept | zerotk/xml_factory/_xml_factory.py:189-190 | a root attribute that no child's tag shadows keeps its value |
| DictConversion.MemberAttributesWin | zerotk/xml_factory/_xml_factory.py:205-206 | a child's attributes are merged in last, so they win over a grandchild with the same tag |
| DictConversion.LeafAttributes | zerotk/xml_factory/_xml_factory.py:212-213 | a childless child with attributes becomes its attributes, sorted, whatever order they were set in, and its text is dropped |
| DictConversion.StrippedTexts | zerotk/xml_factory/_xml_factory.py:165-167 | one stripped text per child |
| DictConversion.ListOfTexts | zerotk/xml_factory/_xml_factory.py:154-168 | a run of childless elements with non-blank text becomes the list of their stripped texts, in order |
| DictConversion.TextItem | zerotk/xml_factory/_xml_factory.py:164-167 | a child with non-blank text appends its stripped text |
| Factory.NewRoot | zerotk/xml_factory/_xml_factory.py:28-37 | a tag name gives a new empty element, with no attribute names to repeat; an element is taken as it is; any other argument, and only that, raises `TypeError` with the type in the message |
| Factory.ParseTarget | zerotk/xml_factory/_xml_factory.py:57-58 | two or more `@` fail with `ValueError`; otherwise the name is a path, or a path and an attribute name joined by the one `@` |
| Factory.TargetOfAttribute | zerotk/xml_factory/_xml_factory.py:58 | `path@attr` parses back into its two halves |
| Factory.Assign | zerotk/xml_factory/_xml_factory.py:39-64 | fails exactly when the name has two or more `@`; otherwise returns an element below the handle's own |
| Factory.AssignAttribute | zerotk/xml_factory/_xml_factory.py:57-60 | with `@`, the value lands under the attribute name; tag, text, children and other attributes stay |
| Factory.AssignText | zerotk/xml_factory/_xml_factory.py:61-63 | without `@`, the value becomes the element's text and nothing else about it changes |
| Factory.AssignFrame | zerotk/xml_factory/_xml_factory.py:39-64 | besides the elements appended on the way, only the target changes; elements off the walked path are untouched |
| Factory.ReplaceTargetFrame | zerotk/xml_factory/_xml_factory.py:60-63 | the one in-place change an assignment makes affects no other existing element |
| Factory.AssignOwnAttribute | zerotk/xml_factory/_xml_factory.py:57-60 | `handle['@attr'] = v` sets the attribute on the handle's own element and creates nothing |
| Factory.AssignKeepsUnique | zerotk/xml_factory/_xml_factory.py:57-63 | an assignment keeps every attribute dictionary free of repeated names: setting an attribute already there overwrites it in place |
| Factory.Obtain | zerotk/xml_factory/_xml_factory.py:66-79 | fails with the assertion message exactly when the name has `@`; otherwise the tree only grows, and the element is below the handle's own |
| Factory.ObtainIdempotent | zerotk/xml_factory/_xml_factory.py:78 | indexing with a `+`-free path a second time changes nothing and returns the same element |
| Factory.ObtainKeepsUnique | zerotk/xml_factory/_xml_factory.py:66-79 | indexing keeps every attribute dictionary free of repeated names |
| Factory.Contents | zerotk/xml_factory/_xml_factory.py:107-123 | the output starts with the declaration when asked for, then `<`, and ends with `>` |
| Factory.ContentsStart | zerotk/xml_factory/_xml_factory.py:107-123 | after the optional declaration comes `<` and the root's tag |
| Factory.Document.SubElement | zerotk/xml_factory/_xml_factory.py:99 | the parent gains a new empty child, at the returned index |
| Factory.Document.SetAttribute | zerotk/xml_factory/_xml_factory.py:60 | the element's attribute is set in place; nothing else in the tree changes |
| Factory.Document.SetText | zerotk/xml_factory/_xml_factory.py:63 | the element's text is set in place; nothing else in the tree changes |
| Factory.XmlFactory.constructor | zerotk/xml_factory/_xml_factory.py:32-33 | a new tree holding only an empty root with the tag |
| Factory.XmlFactory.FromElement | zerotk/xml_factory/_xml_factory.py:34-35 | a factory over the given element |
| Factory.XmlFactory.Handle | zerotk/xml_factory/_xml_factory.py:64 | `XmlFactory(result)`: the same tree, another element |
| Factory.XmlFactory.Create | zerotk/xml_factory/_xml_factory.py:28-37 | the constructor with its type test: `TypeError` for an unknown argument, a fresh factory at the root otherwise |
| Factory.XmlFactory.ObtainElement | zerotk/xml_factory/_xml_factory.py:81-105 | the loop leaves the tree and returns the element that `Resolve` specifies |
| Factory.XmlFactory.StepInto | zerotk/xml_factory/_xml_factory.py:97-104 | one turn of the loop changes the tree and picks the child as `Step` specifies |
| Factory.XmlFactory.SetItem | zerotk/xml_factory/_xml_factory.py:39-64 | on error the tree is unchanged; otherwise the tree and the returned handle are those `Assign` specifies; a returned handle is on the same document and holds an existing element |
| Factory.XmlFactory.GetItem | zerotk/xml_factory/_xml_factory.py:66-79 | on `@` the assertion fails and the tree is unchanged; otherwise the tree and the handle are those `Obtain` specifies; a returned handle is on the same document and holds an existing element |
| Factory.XmlFactory.Print | zerotk/xml_factory/_xml_factory.py:107-123 | appends to the stream the declaration when asked for, then the element |
| Factory.XmlFactory.GetContents | zerotk/xml_factory/_xml_factory.py:135-143 | returns exactly what `print_` writes |
| Factory.XmlFactory.AsDict | zerotk/xml_factory/_xml_factory.py:145-221 | `as_dict()` is a dictionary |
| Scenarios.EscapedOutput | tests/test_xml_factory.py:219-225 | `<root name="&lt;no&gt;">&gt; 3</root>` for the value `<no>` and the text `> 3` |
| Scenarios.EscapeValueExample | tests/test_xml_factory.py:221 | `<no>` escapes to `&lt;no&gt;` |
| Scenarios.EscapeTextExample | tests/test_xml_factory.py:222 | `> 3` escapes to `&gt; 3` |
| Scenarios.OnePart | zerotk/xml_factory/_xml_factory.py:95-103 | a one-part path without `+` names a single child to find or create |
| Scenarios.TriggerClass | tests/test_xml_factory.py:172-186 | `factory['triggers']`, then `triggers['@class'] = 'vector'`, writes `<root>`, the self-closing `<triggers class="vector"/>` and `</root>` |
| Scenarios.ObtainFirstChild | zerotk/xml_factory/_xml_factory.py:100-103 | on a fresh root, a one-part path creates the root's first child |
| Scenarios.TriggerTag | tests/test_xml_factory.py:175 | the attributed empty child is written `  <triggers class="vector"/>` |
| Scenarios.SimplestDict | tests/test_xml_factory.py:12-28 | `<user>` with `name` and `login` texts converts to a dictionary with the two strings, in document order |
| Scenarios.SimpleDict | tests/test_xml_factory.py:31-50 | adding `location/city` nests `{"city": "Charlie"}` under `location`, after the two strings |
| Scenarios.LocationValue | tests/test_xml_factory.py:50 | the one-child `location` element is a record and converts to `{"city": "Charlie"}` |
| Scenarios.TwoLeavesDict | zerotk/xml_factory/_xml_factory.py:188-218 | two text children with different tags become two string entries |
| Scenarios.RepeatedNamesDict | tests/test_xml_factory.py:97-111 | three `name` children convert to `{"name": ["Alpha", "Bravo", "Charlie"]}` |
| Scenarios.ThreeLeavesList | zerotk/xml_factory/_xml_factory.py:199-203 | three same-tag text children become one entry holding the list of their texts |

## Left out

- `WritePrettyXML` (`_pretty_xml.py:10-33`) parses an input file and opens or closes an output file. XML parsing and file I/O are not modelled. Its output is that of `WritePrettyXMLElement`, which is modelled.
- `write` opens a file by name and writes what `get_contents` returns. The file system is not modelled.
- `print_` writes to `sys.stdout` when no stream is given. The model always takes the stream as a parameter (`XmlFactory.Print`).
- `as_json` is `json.dumps` over `as_dict`. JSON serialisation is not modelled; the dictionary it serialises is (`ToDict`).
- The path language of `Element.find`: `find` reads its argument as an ElementPath expression (`.`, `*`, `//`, `[...]`, white space). The model reads each part as a plain tag. `ObtainElement`, `SetItem` and `GetItem` therefore require every part not ending in `+` to be `PlainPath`: non-empty and free of those characters. Parts ending in `+` go to `SubElement`, which takes any tag, so they need no such requirement. An empty part, as in `a//b`, is one of the excluded paths.
- Values are strings. `str(value)` and `six.text_type(value)` coercions of other types are not modelled.
- `Factory.XmlFactory.FromElement`: an element handed to the constructor is copied into a new `Document`. Aliasing with an element the caller keeps, or shares with another factory, is not captured. Handles returned by indexing do share the document, as in Python.
- `Factory.Obtain`: the `assert` in `__getitem__` disappears under `python -O`. The model always keeps it.
- `Factory.ParseTarget`: the `ValueError` carries Python's unpacking message; the model keeps only the kind of error.
- `Factory.Contents`: states the frame of the output (declaration, first `<`, last `>`). The full text is `Render`, which `PrettyXml` specifies and `Scenarios` works out on examples.
- `DictConversion.ToDict` and `Factory.XmlFactory.AsDict` state only that the result is a dictionary. Its keys, their order and the values kept are the separate lemmas `DictKeys`, `AttributesFirst`, `LastSiblingWins`, `RootAttributeKept`, `MemberAttributesWin`, `LeafAttributes` and `ListOfTexts`.
- `DictConversion.ListItems` states only the length bound. Which item each contributing child adds, in order, is `ListItemsFromContributors`; what the items can be is `ListItemsAreItems`; the list for a run of texts is `ListOfTexts`.
- `Text.Strip` states only that its result neither starts nor ends with white space. That everything it cuts is white space, and that the middle is kept as it is, is `Text.StripCuts`.
- The dictionary expected at `tests/test_xml_factory.py:73` (`{"alpha": "Alpha", "bravo": {"charlie": None}}`) does not match the code. `alpha` and `charlie` have attributes and no children, so lines 212-213 store their sorted attributes and drop the text: `alpha` becomes `{"one": "1", "two": "2"}`, not `"Alpha"`, and `charlie` becomes `{"three": "3"}`, not `None`. The model follows the code (`LeafAttributes`).
- The tests call `GetContents`, `AsDict` and `AsJson`. The source defines `get_contents`, `as_dict` and `as_json`. The model follows the source.
- Python 2's unordered `dict`: `dict(element.items())` at lines 190 and 206 is modelled in the order of the attributes, as Python 3.7 and later keep it.
- Unicode: strings are sequences of code points. `str.isspace` is modelled as its list of white-space code points; encodings are not modelled.
