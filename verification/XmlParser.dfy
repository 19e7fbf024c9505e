/** TiXmlElement::Parse and ReadValue on the heap: nodes and attributes are linked in as they are read. */
module XmlParser {
  import opened Wrappers
  import opened XmlText
  import opened XmlTree
  import opened XmlAttributes
  import opened XmlDom
  import opened XmlScanner

  /** A parse on the heap has the outcome r and the tree t that the function on values gives. */
  predicate Read(spec: Option<(Tree, string)>, r: Option<string>, t: Tree) {
    match spec
    case None => r == None
    case Some((u, rest)) => r == Some(rest) && t == u
  }

  method ParseElementNode(node: Node, s: string) returns (r: Option<string>)
    requires node.Valid() && node.kind.ElementNode? && node.tree == Element("", [], [])
    modifies node.Repr
    ensures node.Valid() && fresh(node.Repr - old(node.Repr)) && node.parent == old(node.parent)
    ensures Read(ParseElement(s), r, node.tree)
    decreases |s|, 0
  {
    hide Node.Valid, ReadName, SkipWhiteSpace, ParseTag, ValidName;
    var p := SkipSpace(s);
    if p == [] || p[0] != '<' {
      return None;
    }
    p := SkipSpace(p[1..]);
    var named := ScanName(p);
    if named == None || named.value.1 == [] {
      return None;
    }
    node.SetParsed(named.value.0, false);
    r := ParseTagNode(node, named.value.1, named.value.0);
  }

  /** The loop over attributes, up to the end of the element. */
  method ParseTagNode(node: Node, s: string, name: string) returns (r: Option<string>)
    requires node.Valid() && node.kind.ElementNode? && node.tree == Element(name, [], []) && s != []
    modifies node.Repr
    ensures node.Valid() && fresh(node.Repr - old(node.Repr)) && node.parent == old(node.parent)
    ensures Read(ParseTag(s, name, []), r, node.tree)
    decreases |s|, 5
  {
    hide Node.Valid, ParseTag, ParseAttr, ParseContent, SkipWhiteSpace, HasName;
    var p := s;
    while p != []
      invariant p != [] && |p| <= |s| && node.Valid() && fresh(node.Repr - old(node.Repr))
      invariant node.parent == old(node.parent) && old(node.Repr) <= node.Repr
      invariant node.tree.Element? && node.tree == Element(name, node.tree.attrs, [])
      invariant ParseTag(s, name, []) == ParseTag(p, name, node.tree.attrs)
      decreases |p|
    {
      TagUnfold(p, name, node.tree.attrs);
      p := SkipSpace(p);
      if p == [] {
        return None;
      }
      if p[0] == '/' {
        if |p| > 1 && p[1] == '>' {
          return Some(p[2..]);
        }
        return None;
      } else if p[0] == '>' {
        r := ParseContentNode(node, p[1..]);
        return;
      }
      var rest := ParseAttributeNode(node, p);
      if rest == None {
        return None;
      }
      p := rest.value;
    }
  }

  lemma TagUnfold(s: string, name: string, attrs: seq<Attr>)
    ensures ParseTag(s, name, attrs) == ParseTagAt(SkipWhiteSpace(s), name, attrs)
  {
  }

  /** The attribute a parse adds to the tree t, unless its name is taken, and the cursor it leaves. */
  predicate TakesAttribute(spec: Option<(Attr, string)>, r: Option<string>, t: Tree, u: Tree)
    requires t.Element?
  {
    match spec
    case None => r == None
    case Some((a, rest)) =>
      if rest == [] || HasName(t.attrs, a.name) then r == None
      else r == Some(rest) && u == Element(t.name, t.attrs + [a], t.children)
  }

  /** Reads an attribute and links it in, unless its name is taken. */
  method ParseAttributeNode(node: Node, p: string) returns (r: Option<string>)
    requires node.Valid() && node.kind.ElementNode? && p != []
    modifies node.Repr
    ensures node.Valid() && fresh(node.Repr - old(node.Repr)) && node.parent == old(node.parent)
    ensures old(node.Repr) <= node.Repr
    ensures TakesAttribute(ParseAttr(p), r, old(node.tree), node.tree)
  {
    hide *;
    var attrib := new Attribute();
    r := ScanAttribute(attrib, p);
    attrib.PairFields();
    ghost var spec, t, a := ParseAttr(p), node.tree, attrib.Pair();
    if r == None || r.value == [] {
      NoAttribute(spec, r, t, t);
      return None;
    }
    assert spec == Some((a, r.value));
    NameIsCString(p);
    node.AttributesOf();
    var same := node.attributeSet.Find(attrib.name);
    if same != null {
      TakenAttribute(spec, t, t);
      return None;
    }
    node.AddAttribute(attrib);
    NewAttribute(spec, a, r.value, t, node.tree);
  }

  lemma NoAttribute(spec: Option<(Attr, string)>, r: Option<string>, t: Tree, u: Tree)
    requires t.Element? && (r == None || r.value == [])
    requires match spec case None => r == None case Some((_, rest)) => r == Some(rest)
    ensures TakesAttribute(spec, None, t, u)
  {
  }

  lemma TakenAttribute(spec: Option<(Attr, string)>, t: Tree, u: Tree)
    requires t.Element? && spec.Some? && HasName(t.attrs, spec.value.0.name)
    ensures TakesAttribute(spec, None, t, u)
  {
  }

  lemma NewAttribute(spec: Option<(Attr, string)>, a: Attr, rest: string, t: Tree, u: Tree)
    requires t.Element? && spec == Some((a, rest)) && rest != [] && !HasName(t.attrs, a.name)
    requires u == t.(attrs := t.attrs + [a])
    ensures TakesAttribute(spec, Some(rest), t, u)
  {
  }

  lemma NameIsCString(p: string)
    ensures ParseAttr(p).Some? ==>
              var name := ParseAttr(p).value.0.name;
              '\0' !in name && CStr(name) == name && |ParseAttr(p).value.1| < |p|
  {
    hide ParseAttr;
  }

  method ParseContentNode(node: Node, s: string) returns (r: Option<string>)
    requires node.Valid() && node.kind.ElementNode? && node.tree.children == []
    modifies node.Repr
    ensures node.Valid() && fresh(node.Repr - old(node.Repr)) && node.parent == old(node.parent)
    ensures Read(ParseContent(s, old(node.tree.name), old(node.tree.attrs)), r, node.tree)
    decreases |s|, 4
  {
    hide Node.Valid, ReadValue, SkipWhiteSpace;
    var q := ReadValueNode(node, s);
    if q == None {
      return None;
    }
    node.ValueOf();
    var endTag := "</" + node.value;
    if !(endTag <= q.value) {
      return None;
    }
    var p := SkipSpace(q.value[|endTag|..]);
    if p == [] || p[0] != '>' {
      return None;
    }
    return Some(p[1..]);
  }

  /** The children a parse adds to the tree t, and the cursor it leaves. */
  predicate TakesIn(spec: Option<(seq<Tree>, string)>, r: Option<string>, t: Tree, u: Tree)
    requires t.Element?
  {
    match spec
    case None => r == None
    case Some((more, rest)) => r == Some(rest) && u == Element(t.name, t.attrs, t.children + more)
  }

  /** ReadValue: children are read and linked in until an end tag is found. */
  method ReadValueNode(node: Node, s: string) returns (r: Option<string>)
    requires node.Valid() && node.kind.ElementNode? && node.tree.children == []
    modifies node.Repr
    ensures node.Valid() && fresh(node.Repr - old(node.Repr)) && node.parent == old(node.parent)
    ensures TakesIn(ReadValue(s), r, old(node.tree), node.tree)
    decreases |s|, 3
  {
    hide *;
    ghost var t := node.tree;
    var p := SkipSpace(s);
    ReadingStarts(s, t);
    while p != []
      invariant node.Valid() && old(node.Repr) <= node.Repr && fresh(node.Repr - old(node.Repr))
      invariant node.parent == old(node.parent) && |p| <= |s| && Reading(s, t, p, node.tree)
      decreases |p|
    {
      ghost var u := node.tree;
      ReadingAt(s, t, p, u);
      if "</" <= p {
        return Some(p);
      }
      r := ReadChild(node, p);
      ReadingGoesOn(s, t, p, u, r, node.tree);
      if r == None {
        return None;
      }
      p := SkipSpace(r.value);
    }
    ReadingAt(s, t, p, node.tree);
    return None;
  }

  /** Part way through the children: u is t with those read so far, and p is where to read on. */
  predicate Reading(s: string, t: Tree, p: string, u: Tree)
    requires t.Element? && u.Element?
  {
    (p == [] || !IsWhiteSpace(p[0])) && t.children == [] && u == Element(t.name, t.attrs, u.children) &&
    ReadValue(s) == Prepend(u.children, ReadValueAt(p))
  }

  lemma ReadingStarts(s: string, t: Tree)
    requires t.Element? && t.children == []
    ensures Reading(s, t, SkipWhiteSpace(s), t) && |SkipWhiteSpace(s)| <= |s|
  {
    ReadValueUnfold(s);
    PrependNothing(ReadValue(s));
  }

  lemma ReadingAt(s: string, t: Tree, p: string, u: Tree)
    requires t.Element? && u.Element? && Reading(s, t, p, u)
    ensures p == [] ==> TakesIn(ReadValue(s), None, t, u)
    ensures p != [] ==> !IsWhiteSpace(p[0])
    ensures "</" <= p ==> TakesIn(ReadValue(s), Some(p), t, u)
  {
    if "</" <= p {
      ReadValueEnd(p, u.children);
      assert [] + u.children == u.children;
    }
  }

  lemma ReadingGoesOn(s: string, t: Tree, p: string, u: Tree, r: Option<string>, v: Tree)
    requires t.Element? && u.Element? && v.Element? && p != [] && !IsWhiteSpace(p[0]) && !("</" <= p)
    ensures Reading(s, t, p, u) && TakesIn(ReadStep(p), r, u, v) ==>
      if r == None then TakesIn(ReadValue(s), None, t, v)
      else Reading(s, t, SkipWhiteSpace(r.value), v) && |SkipWhiteSpace(r.value)| < |p|
  {
    hide ReadStep, SkipWhiteSpace, ReadValue, ReadValueAt, Prepend;
    ReadValueStep(p, u.children);
  }

  /** What one turn of the loop in ReadValue reads. */
  function ReadStep(p: string): (r: Option<(seq<Tree>, string)>)
    requires p != [] && !IsWhiteSpace(p[0])
    ensures r.Some? ==> |r.value.1| < |p|
  {
    if p[0] != '<' then ReadPlainText(p)
    else Lone(ParseNode(p))
  }

  function Lone(r: Option<(Tree, string)>): Option<(seq<Tree>, string)> {
    match r
    case None => None
    case Some((child, rest)) => Some(([child], rest))
  }

  lemma ReadValueUnfold(s: string)
    ensures var p := SkipWhiteSpace(s); (p == [] || !IsWhiteSpace(p[0])) && |p| <= |s| && ReadValue(s) == ReadValueAt(p)
  {
  }

  lemma ReadValueStep(p: string, before: seq<Tree>)
    requires p != [] && !IsWhiteSpace(p[0]) && !("</" <= p)
    ensures match ReadStep(p)
            case None => Prepend(before, ReadValueAt(p)) == None
            case Some((more, rest)) =>
              var q := SkipWhiteSpace(rest);
              (q == [] || !IsWhiteSpace(q[0])) && |q| < |p| &&
              Prepend(before, ReadValueAt(p)) == Prepend(before + more, ReadValueAt(q))
  {
    hide ReadPlainText, ParseNode, SkipWhiteSpace, ReadValue, Prepend;
    var step := ReadStep(p);
    match step
    case None => PrependNone(before);
    case Some((more, rest)) =>
      ReadValueUnfold(rest);
      assert ReadValueAt(p) == Prepend(more, ReadValue(rest));
      PrependBoth(before, more, ReadValue(rest));
  }

  lemma ReadValueEnd(p: string, before: seq<Tree>)
    requires "</" <= p && !IsWhiteSpace(p[0])
    ensures Prepend(before, ReadValueAt(p)) == Some((before, p))
  {
    assert before + [] == before;
  }

  lemma PrependNone(before: seq<Tree>)
    ensures Prepend(before, None) == None
  {
  }

  lemma PrependNothing(r: Option<(seq<Tree>, string)>)
    ensures Prepend([], r) == r
  {
    if r.Some? {
      assert [] + r.value.0 == r.value.0;
    }
  }

  lemma PrependBoth(a: seq<Tree>, b: seq<Tree>, r: Option<(seq<Tree>, string)>)
    ensures Prepend(a, Prepend(b, r)) == Prepend(a + b, r)
  {
    if r.Some? {
      assert a + (b + r.value.0) == (a + b) + r.value.0;
    }
  }

  /** One turn of the loop in ReadValue. */
  method ReadChild(node: Node, p: string) returns (r: Option<string>)
    requires node.Valid() && node.kind.ElementNode? && p != [] && !IsWhiteSpace(p[0]) && !("</" <= p)
    modifies node.Repr
    ensures node.Valid() && old(node.Repr) <= node.Repr && fresh(node.Repr - old(node.Repr))
    ensures node.parent == old(node.parent)
    ensures TakesIn(ReadStep(p), r, old(node.tree), node.tree)
    decreases |p|, 2
  {
    hide *;
    if p[0] != '<' {
      TextStep(p);
      r := ReadTextNode(node, p);
    } else {
      NodeStep(p);
      var child;
      child, r := ParseChild(node, p);
      if child == null {
        NoChild(node.tree, node.tree);
      } else {
        node.AppendCopy(child);
        OneChild(ParseNode(p), r, child.tree, old(node.tree), node.tree);
      }
    }
  }

  lemma TextStep(p: string)
    requires p != [] && !IsWhiteSpace(p[0]) && p[0] != '<'
    ensures ReadStep(p) == ReadPlainText(p)
  {
  }

  lemma NodeStep(p: string)
    requires p != [] && !IsWhiteSpace(p[0]) && p[0] == '<'
    ensures ReadStep(p) == Lone(ParseNode(p))
  {
  }

  lemma OneChild(spec: Option<(Tree, string)>, r: Option<string>, c: Tree, t: Tree, u: Tree)
    requires t.Element? && Read(spec, r, c) && u == t.(children := t.children + [c])
    ensures TakesIn(Lone(spec), r, t, u)
  {
  }

  lemma NoChild(t: Tree, u: Tree)
    requires t.Element?
    ensures TakesIn(Lone(None), None, t, u)
  {
  }

  /** A text node, linked in unless it is blank; the cursor goes back to the '<'. */
  method ReadTextNode(node: Node, p: string) returns (r: Option<string>)
    requires node.Valid() && node.kind.ElementNode? && p != [] && !IsWhiteSpace(p[0]) && p[0] != '<'
    modifies node.Repr
    ensures node.Valid() && old(node.Repr) <= node.Repr && fresh(node.Repr - old(node.Repr))
    ensures node.parent == old(node.parent)
    ensures TakesIn(ReadPlainText(p), r, old(node.tree), node.tree)
  {
    hide Node.Valid, ReadText, Blank;
    var textNode := new Node(TextNode, "", false);
    var text := ScanText(p, true, "<");
    if text == None {
      return None;
    }
    textNode.SetParsed(text.value.0, false);
    textNode.ValueOf();
    assert node.tree.children + [] == node.tree.children;
    if !Blank(textNode.value) {
      node.AppendCopy(textNode);
    }
    return Some("<" + text.value.1);
  }

  /** Identify and the Parse method it selects. */
  method ParseChild(parent: Node, s: string) returns (child: Node?, r: Option<string>)
    requires s != [] && s[0] == '<'
    ensures child == null ==> r == None && ParseNode(s) == None
    ensures child != null ==>
      child.Valid() && fresh(child.Repr) && child.parent == parent && !child.kind.DocumentNode? &&
      Read(ParseNode(s), r, child.tree)
    decreases |s|, 1
  {
    hide Node.Valid, ParseElement, ParseComment, ParseCData, ParseUnknown, StartsWithIgnoreCase;
    var kind := Identify(s);
    match kind {
      case DeclarationKind => return null, None;
      case CommentKind =>
        child := new Node(CommentNode, "", false);
        child.parent := parent;
        r := ParseCommentNode(child, s);
      case TextKind =>
        child := new Node(TextNode, "", true);
        child.parent := parent;
        r := ParseCDataNode(child, s);
      case UnknownKind =>
        child := new Node(UnknownNode, "", false);
        child.parent := parent;
        r := ParseUnknownNode(child, s);
      case ElementKind =>
        child := new Node(ElementNode, "", false);
        child.parent := parent;
        r := ParseElementNode(child, s);
    }
  }

  method ParseCommentNode(node: Node, s: string) returns (r: Option<string>)
    requires node.Valid() && node.kind.CommentNode? && "<!--" <= s
    modifies node.Repr
    ensures node.Valid() && node.Repr == old(node.Repr) && node.parent == old(node.parent)
    ensures Read(ParseComment(s), r, node.tree)
  {
    hide Node.Valid, Find;
    var value, p := ScanUntil(s[4..], "-->");
    node.SetParsed(value, false);
    r := Some(if p == [] then [] else p[3..]);
  }

  method ParseCDataNode(node: Node, s: string) returns (r: Option<string>)
    requires node.Valid() && node.kind.TextNode? && "<![CDATA[" <= s
    modifies node.Repr
    ensures node.Valid() && node.Repr == old(node.Repr) && node.parent == old(node.parent)
    ensures Read(ParseCData(s), r, node.tree)
  {
    hide Node.Valid, Find, ReadText;
    var value, p := ScanUntil(s[9..], "]]>");
    node.SetParsed(value, true);
    var dummy := ScanText(p, false, "]]>");
    assert s[9..][Find(s[9..], "]]>")..] == s[9 + Find(s[9..], "]]>")..];
    r := if dummy == None then None else Some(dummy.value.1);
  }

  method ParseUnknownNode(node: Node, s: string) returns (r: Option<string>)
    requires node.Valid() && node.kind.UnknownNode? && s != [] && s[0] == '<'
    modifies node.Repr
    ensures node.Valid() && node.Repr == old(node.Repr) && node.parent == old(node.parent)
    ensures Read(ParseUnknown(s), r, node.tree)
  {
    hide Node.Valid, IndexOf;
    var value, p := "", s[1..];
    while p != [] && p[0] != '>'
      modifies {}
      invariant |p| < |s| && p == s[|s| - |p|..] && value == s[1..|s| - |p|]
      invariant |s| - |p| + IndexOf(p, '>') == 1 + IndexOf(s[1..], '>')
      decreases |p|
    {
      IndexUnfold(p, '>');
      value := value + [p[0]];
      p := p[1..];
    }
    IndexUnfold(p, '>');
    assert value == s[1..][..IndexOf(s[1..], '>')];
    node.SetParsed(value, false);
    r := Some(if p == [] then [] else p[1..]);
  }

  lemma IndexUnfold(s: string, c: char)
    ensures IndexOf(s, c) == if s == [] || s[0] == c then 0 else 1 + IndexOf(s[1..], c)
  {
  }
}
