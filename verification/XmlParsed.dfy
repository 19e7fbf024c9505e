/** What every parse result satisfies: it is well formed, and printable if its characters are clean. */
module XmlParsed {
  import opened Wrappers
  import opened XmlText
  import opened XmlTree
  import opened XmlTextRoundTrip
  import opened XmlRoundTrip

  /** The part of Printable that the parser guarantees. */
  predicate WellFormed(t: Tree) {
    match t
    case Element(name, attrs, children) =>
      ValidName(name) && UniqueNames(attrs) && NoAdjacentTexts(children) &&
      (forall i :: 0 <= i < |attrs| ==> ValidName(attrs[i].name)) &&
      (forall i :: 0 <= i < |children| ==> WellFormed(children[i]))
    case Text(text, cdata) => if cdata then Avoids(text, "]]>") else !Blank(text)
    case Comment(comment) => Avoids(comment, "-->")
    case Unknown(tag) => ReadableTag(tag)
  }

  /** The part that depends on the characters of texts and values alone. */
  predicate Clean(t: Tree) {
    match t
    case Element(_, attrs, children) =>
      (forall i :: 0 <= i < |attrs| ==> NoHexRef(attrs[i].value)) &&
      (forall i :: 0 <= i < |children| ==> Clean(children[i]))
    case Text(text, cdata) => if cdata then '\0' !in text else NoHexRef(text) && NoStrayBlanks(text)
    case Comment(comment) => '\0' !in comment
    case Unknown(tag) => '\0' !in tag
  }

  lemma {:induction false} PrintableParts(t: Tree)
    ensures Printable(t) <==> WellFormed(t) && Clean(t)
  {
    hide ValidName, UniqueNames, NoAdjacentTexts, Avoids, NoHexRef, NoStrayBlanks, StartsWithIgnoreCase, Blank;
    if t.Element? {
      forall i | 0 <= i < |t.children|
        ensures Printable(t.children[i]) <==> WellFormed(t.children[i]) && Clean(t.children[i])
      {
        PrintableParts(t.children[i]);
      }
    }
  }

  // ---------- leaves ----------

  lemma {:induction false} FoundAvoids(s: string, tag: string)
    requires tag != []
    ensures Avoids(s[..Find(s, tag)], tag)
  {
    if s != [] && !(tag <= s) {
      FoundAvoids(s[1..], tag);
      var v := s[..Find(s, tag)];
      assert v[1..] == s[1..][..Find(s[1..], tag)];
      assert tag <= v ==> tag <= s;
    }
  }

  lemma TagIsWellFormed(s: string, n: nat)
    requires s != [] && s[0] == '<' && Identify(s) == UnknownKind && !("</" <= s)
    requires n <= |s| - 1 && '>' !in s[1..][..n]
    ensures ReadableTag(s[1..][..n])
  {
    var tag := s[1..][..n];
    assert forall i :: 0 <= i < n ==> tag[i] == s[i + 1];
    assert n >= 4 ==> forall i :: 0 <= i < 4 ==> "<?xml"[i + 1] == "?xml"[i];
    assert ToLower('<') == '<';
    assert "!--" <= tag ==> "<!--" <= s;
    assert "![CDATA[" <= tag ==> "<![CDATA[" <= s;
  }

  lemma LeafIsWellFormed(s: string)
    requires s != [] && s[0] == '<' && !("</" <= s) && Identify(s) != ElementKind
    ensures ParseNode(s).Some? ==> WellFormed(ParseNode(s).value.0) && !IsPlainText(ParseNode(s).value.0)
  {
    hide Find, StartsWithIgnoreCase, ReadText, ReadableTag;
    match Identify(s) {
      case CommentKind => FoundAvoids(s[4..], "-->");
      case TextKind => FoundAvoids(s[9..], "]]>");
      case UnknownKind => TagIsWellFormed(s, IndexOf(s[1..], '>'));
      case DeclarationKind =>
    }
  }

  // ---------- elements ----------

  predicate WellFormedSiblings(children: seq<Tree>) {
    NoAdjacentTexts(children) && forall i :: 0 <= i < |children| ==> WellFormed(children[i])
  }

  predicate WellFormedAttrs(attrs: seq<Attr>) {
    UniqueNames(attrs) && forall i :: 0 <= i < |attrs| ==> ValidName(attrs[i].name)
  }

  lemma PrependWellFormed(t: Tree, siblings: seq<Tree>)
    requires WellFormed(t) && WellFormedSiblings(siblings)
    requires IsPlainText(t) && siblings != [] ==> !IsPlainText(siblings[0])
    ensures WellFormedSiblings([t] + siblings)
  {
    hide WellFormed;
    var all := [t] + siblings;
    forall i {:trigger all[i]} | 0 <= i < |all| - 1
      ensures !(IsPlainText(all[i]) && IsPlainText(all[i + 1]))
    {
      if i > 0 {
        assert all[i] == siblings[i - 1] && all[i + 1] == siblings[i];
      }
    }
  }

  lemma {:induction false} ParsedNode(s: string)
    requires s != [] && s[0] == '<' && !("</" <= s)
    ensures ParseNode(s).Some? ==> WellFormed(ParseNode(s).value.0) && !IsPlainText(ParseNode(s).value.0)
    decreases |s|, 1
  {
    if Identify(s) == ElementKind {
      hide Identify, ParseElement, WellFormed;
      ParsedElement(s);
    } else {
      LeafIsWellFormed(s);
    }
  }

  /** Every element the parser returns is well formed. */
  lemma {:induction false} ParsedElement(s: string)
    ensures ParseElement(s).Some? ==> WellFormed(ParseElement(s).value.0)
    decreases |s|, 0
  {
    hide ReadName, ParseTag, WellFormed, ValidName;
    var p := SkipWhiteSpace(s);
    if p != [] && p[0] == '<' && ReadName(SkipWhiteSpace(p[1..])).Some? {
      var (name, rest) := ReadName(SkipWhiteSpace(p[1..])).value;
      ParsedTag(rest, name, []);
    }
  }

  lemma {:induction false} ParsedTag(s: string, name: string, attrs: seq<Attr>)
    requires ValidName(name) && WellFormedAttrs(attrs)
    ensures ParseTag(s, name, attrs).Some? ==> WellFormed(ParseTag(s, name, attrs).value.0)
    decreases |s|, 5
  {
    hide ParseAttr, ParseContent, WellFormed, ValidName;
    var p := SkipWhiteSpace(s);
    assert ParseTag(s, name, attrs) == ParseTagAt(p, name, attrs);
    if p == [] {
    } else if p[0] == '/' {
      EmptyIsWellFormed(name, attrs);
    } else if p[0] == '>' {
      ParsedContent(p[1..], name, attrs);
    } else if ParseAttr(p).Some? {
      var (attr, rest) := ParseAttr(p).value;
      if !HasName(attrs, attr.name) {
        assert WellFormedAttrs(attrs + [attr]);
        ParsedTag(rest, name, attrs + [attr]);
      }
    }
  }

  lemma EmptyIsWellFormed(name: string, attrs: seq<Attr>)
    requires ValidName(name) && WellFormedAttrs(attrs)
    ensures WellFormed(Element(name, attrs, []))
  {
  }

  lemma {:induction false} ParsedContent(s: string, name: string, attrs: seq<Attr>)
    requires ValidName(name) && WellFormedAttrs(attrs)
    ensures ParseContent(s, name, attrs).Some? ==> WellFormed(ParseContent(s, name, attrs).value.0)
    decreases |s|, 4
  {
    hide ReadValue, ParseEndTag;
    ParsedValue(s);
  }

  /** Siblings are well formed, and no plain text comes first where the cursor was at a tag. */
  lemma {:induction false} ParsedValue(s: string)
    ensures ReadValue(s).Some? ==>
      var children := ReadValue(s).value.0;
      WellFormedSiblings(children) && (s != [] && s[0] == '<' && children != [] ==> !IsPlainText(children[0]))
    decreases |s|, 3
  {
    hide SkipWhiteSpace, WellFormed, NoAdjacentTexts;
    var p := SkipWhiteSpace(s);
    if s != [] && s[0] == '<' { NoSkip(s); }
    assert ReadValue(s) == ReadValueAt(p);
    if ReadValueAt(p).Some? {
      ParsedValueAt(p, ReadValueAt(p).value.0, ReadValueAt(p).value.1);
    }
  }

  lemma {:induction false} ParsedValueAt(p: string, children: seq<Tree>, q: string)
    requires p == [] || !IsWhiteSpace(p[0])
    ensures ReadValueAt(p) == Some((children, q)) ==> WellFormedSiblings(children)
    ensures ReadValueAt(p) == Some((children, q)) && p != [] && p[0] == '<' && children != [] ==> !IsPlainText(children[0])
    decreases |p|, 2
  {
    hide ParseNode, ReadValue, ReadText, WellFormedSiblings, WellFormed;
    if p == [] {
    } else if p[0] != '<' {
      if ReadPlainText(p).Some? {
        var (texts, rest) := ReadPlainText(p).value;
        ParsedValue(rest);
        if ReadValue(rest).Some? { TextsWellFormed(texts, ReadValue(rest).value.0); }
      }
    } else if "</" <= p {
      NoSiblings();
    } else if ParseNode(p).Some? {
      var (child, rest) := ParseNode(p).value;
      ParsedNode(p);
      ParsedValue(rest);
      if ReadValue(rest).Some? { PrependWellFormed(child, ReadValue(rest).value.0); }
    }
  }

  lemma NoSiblings()
    ensures WellFormedSiblings([])
  {
  }

  lemma TextsWellFormed(texts: seq<Tree>, siblings: seq<Tree>)
    requires texts == [] || (exists text :: texts == [Text(text, false)] && !Blank(text))
    requires WellFormedSiblings(siblings) && (siblings != [] ==> !IsPlainText(siblings[0]))
    ensures WellFormedSiblings(texts + siblings)
  {
    if texts == [] {
      assert texts + siblings == siblings;
    } else {
      PrependWellFormed(texts[0], siblings);
    }
  }
}
