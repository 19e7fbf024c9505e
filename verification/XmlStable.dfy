/**
 A parse that succeeds does not depend on what follows: more bytes behind it only lengthen what is left.

 Nothing is read beyond a quote, a tag or a name that has not ended yet, so each part of the parser, from single
 characters up to elements, gives the same result in front of more bytes.
 */
module XmlStable {
  import opened Wrappers
  import opened XmlText
  import opened XmlTree
  import opened XmlTextRoundTrip
  import opened XmlRoundTrip
  import opened XmlParsed
  import opened XmlLag
  import opened XmlExact

  // ---------- tokens ----------

  lemma {:induction false} SkipStable(s: string, x: string)
    requires SkipWhiteSpace(s) != []
    ensures SkipWhiteSpace(s + x) == SkipWhiteSpace(s) + x
  {
    Behead(s, x);
    if IsWhiteSpace(s[0]) {
      SkipStable(s[1..], x);
    }
  }

  lemma {:induction false} NameLengthStable(s: string, x: string)
    requires NameLength(s) < |s|
    ensures NameLength(s + x) == NameLength(s)
  {
    if IsNameChar(s[0]) {
      NameLengthStable(s[1..], x);
      assert (s + x)[1..] == s[1..] + x;
    }
  }

  lemma NameStable(s: string, x: string, name: string, q: string)
    requires ReadName(s) == Some((name, q)) && q != []
    ensures ReadName(s + x) == Some((name, q + x))
  {
    hide NameLength, IsNameStart;
    NameLengthStable(s, x);
    var n := NameLength(s);
    assert (s + x)[..n] == s[..n] && (s + x)[n..] == s[n..] + x;
  }

  lemma {:induction false} IndexStable(s: string, x: string, c: char)
    requires IndexOf(s, c) < |s|
    ensures IndexOf(s + x, c) == IndexOf(s, c)
  {
    if s[0] != c {
      IndexStable(s[1..], x, c);
      assert (s + x)[1..] == s[1..] + x;
    }
  }

  predicate Starts(s: string, tag: string) {
    tag <= s
  }

  lemma Behead(s: string, x: string)
    requires s != []
    ensures (s + x)[1..] == s[1..] + x && (s + x)[0] == s[0]
  {
  }

  lemma FindStep(s: string, tag: string)
    requires s != []
    ensures Find(s, tag) == if Starts(s, tag) then 0 else 1 + Find(s[1..], tag)
    ensures Find(s, tag) < |s| ==> |tag| <= |s|
  {
    assert Find(s, tag) < |s| ==> |tag| <= |s[Find(s, tag)..]|;
  }

  lemma {:induction false} FindStable(s: string, x: string, tag: string)
    requires Find(s, tag) < |s|
    ensures Find(s + x, tag) == Find(s, tag)
  {
    hide Find, Starts;
    Behead(s, x);
    FindStep(s, tag);
    FindStep(s + x, tag);
    LongTag(s, x, tag);
    if !Starts(s, tag) {
      FindStable(s[1..], x, tag);
    }
  }

  lemma LongTag(s: string, x: string, tag: string)
    requires |tag| <= |s|
    ensures tag <= s + x <==> tag <= s
    ensures Starts(s + x, tag) <==> Starts(s, tag)
  {
    assert (s + x)[..|tag|] == s[..|tag|];
  }

  /** A tag that is met only with more bytes starts with all of s. */
  lemma TagStable(s: string, x: string, tag: string, c: char)
    requires c in s && c !in tag
    ensures tag <= s + x <==> tag <= s
  {
    var i :| 0 <= i < |s| && s[i] == c;
    if |s| < |tag| {
      assert (s + x)[i] == c && tag[i] != c;
    } else {
      LongTag(s, x, tag);
    }
  }

  // ---------- entities ----------

  lemma {:induction false} NumericStable(s: string, x: string, q: nat, stopAt: nat, base: nat, mult: nat, ucs: nat)
    requires stopAt <= q < |s|
    ensures NumericRef(s + x, q, stopAt, base, mult, ucs) == NumericRef(s, q, stopAt, base, mult, ucs)
    decreases q
  {
    if s[q] != s[stopAt] && DigitValue(s[q], base).Some? {
      var d := DigitValue(s[q], base).value;
      NumericStable(s, x, q - 1, stopAt, base, mult * base % UNSIGNED_RANGE, ucs + mult * d % UNSIGNED_RANGE);
    }
  }

  lemma NumberStable(s: string, x: string, stopAt: nat, base: nat)
    requires stopAt + 1 < |s| && NumericEntity(s, stopAt, base).Got?
    ensures NumericEntity(s + x, stopAt, base).Got?
    ensures NumericEntity(s + x, stopAt, base).out == NumericEntity(s, stopAt, base).out
    ensures NumericEntity(s + x, stopAt, base).rest == NumericEntity(s, stopAt, base).rest + x
  {
    hide NumericRef, IndexOf;
    var t := s[stopAt + 1..];
    assert (s + x)[stopAt + 1..] == t + x;
    IndexStable(t, x, ';');
    var k := stopAt + 1 + IndexOf(t, ';');
    NumericStable(s, x, k - 1, stopAt, base, 1, 0);
    assert (s + x)[k + 1..] == s[k + 1..] + x;
  }

  predicate EndsText(c: char) {
    c == '<' || c == '\'' || c == '\"'
  }

  lemma CharStable(s: string, x: string, c: char)
    requires s != [] && c in s && EndsText(c) && GetChar(s).Got?
    ensures GetChar(s + x) == Got(GetChar(s).out, GetChar(s).rest + x)
  {
    if s[0] != '&' {
      assert (s + x)[1..] == s[1..] + x;
    } else if |s| > 2 && s[1] == '#' {
      NumberStable(s, x, if s[2] == 'x' then 2 else 1, if s[2] == 'x' then 16 else 10);
    } else {
      NamedStable(s, x, c);
    }
  }

  /** An entity without a number is told by the tags it starts with. */
  lemma EntityByTags(s: string)
    requires s != [] && s[0] == '&' && !(|s| > 2 && s[1] == '#')
    ensures GetEntity(s) ==
            if Starts(s, "&amp;") then Got("&", s[5..])
            else if Starts(s, "&lt;") then Got("<", s[4..])
            else if Starts(s, "&gt;") then Got(">", s[4..])
            else if Starts(s, "&quot;") then Got("\"", s[6..])
            else if Starts(s, "&apos;") then Got("'", s[6..])
            else Got("", s[1..])
  {
  }

  lemma StartsStable(s: string, x: string, tag: string, c: char)
    requires c in s && c !in tag
    ensures Starts(s + x, tag) == Starts(s, tag) && (Starts(s, tag) ==> (s + x)[|tag|..] == s[|tag|..] + x)
  {
    TagStable(s, x, tag, c);
  }

  lemma NamedStable(s: string, x: string, c: char)
    requires s != [] && s[0] == '&' && c in s && EndsText(c) && !(|s| > 2 && s[1] == '#')
    ensures GetEntity(s).Got? && GetEntity(s + x) == Got(GetEntity(s).out, GetEntity(s).rest + x)
  {
    hide Starts, GetEntity;
    StartsStable(s, x, "&amp;", c);
    StartsStable(s, x, "&lt;", c);
    StartsStable(s, x, "&gt;", c);
    StartsStable(s, x, "&quot;", c);
    StartsStable(s, x, "&apos;", c);
    assert |s| == 2 ==> s[1] == c;
    assert (s + x)[1..] == s[1..] + x;
    EntityByTags(s);
    EntityByTags(s + x);
  }

  // ---------- texts ----------

  lemma {:induction false} KeepStable(s: string, x: string, end: string, t: string, q: string)
    requires |end| == 1 && EndsText(end[0]) && KeepText(s, end) == Some((t, q)) && q != []
    ensures KeepText(s + x, end) == Some((t, q + x))
    decreases |s|
  {
    hide GetChar;
    KeepEnds(s, end);
    assert q[0] == end[0] && q[0] in s;
    if !(end <= s) {
      CharStable(s, x, end[0]);
      var rest := GetChar(s).rest;
      KeepStable(rest, x, end, KeepText(rest, end).value.0, q);
    }
  }

  lemma {:induction false} CondenseStable(s: string, x: string, pending: bool, t: string, q: string)
    requires CondenseText(s, "<", pending) == Some((t, q)) && q != []
    ensures CondenseText(s + x, "<", pending) == Some((t, q + x))
    decreases |s|
  {
    hide GetChar, IsWhiteSpace;
    CondenseEnds(s, pending);
    assert q[0] == '<' && q[0] in s;
    if !("<" <= s) {
      if IsWhiteSpace(s[0]) {
        CondenseStable(s[1..], x, true, t, q);
        assert (s + x)[1..] == s[1..] + x;
      } else {
        CharStable(s, x, '<');
        var rest := GetChar(s).rest;
        CondenseStable(rest, x, false, CondenseText(rest, "<", false).value.0, q);
      }
    }
  }

  /** The end tags with which texts are read. */
  predicate IsEnd(trim: bool, end: string) {
    if trim then end == "<" else |end| == 1 && EndsText(end[0])
  }

  lemma TextStable(s: string, x: string, trim: bool, end: string, t: string, q: string)
    requires IsEnd(trim, end) && ReadText(s, trim, end) == Some((t, q))
    ensures ReadText(s + x, trim, end) == Some((t, q + x))
  {
    hide KeepText, CondenseText, SkipWhiteSpace;
    if trim {
      var p := SkipWhiteSpace(s);
      var r := CondenseText(p, "<", false).value.1;
      NothingCondensed();
      SkipStable(s, x);
      CondenseStable(p, x, false, t, r);
      assert (r + x)[1..] == r[1..] + x;
    } else {
      var r := KeepText(s, end).value.1;
      KeepStable(s, x, end, t, r);
      assert (r + x)[1..] == r[1..] + x;
    }
  }

  lemma NothingCondensed()
    ensures CondenseText([], "<", false) == Some(("", ""))
  {
  }

  // ---------- attributes ----------

  lemma {:induction false} UnquotedStable(s: string, x: string)
    requires UnquotedLength(s) < |s|
    ensures UnquotedLength(s + x) == UnquotedLength(s)
  {
    hide IsWhiteSpace;
    Behead(s, x);
    if UnquotedLength(s) > 0 {
      UnquotedStable(s[1..], x);
    }
  }

  lemma ValueStable(s: string, x: string, v: string, q: string)
    requires s != [] && ParseAttrValue(s) == Some((v, q)) && q != []
    ensures ParseAttrValue(s + x) == Some((v, q + x))
  {
    hide ReadText, UnquotedLength, HasQuote;
    Behead(s, x);
    if s[0] == '\'' {
      TextStable(s[1..], x, false, "'", v, q);
    } else if s[0] == '\"' {
      TextStable(s[1..], x, false, "\"", v, q);
    } else {
      UnquotedStable(s, x);
      var n := UnquotedLength(s);
      assert (s + x)[..n] == s[..n] && (s + x)[n..] == s[n..] + x;
    }
  }

  lemma AttrStable(s: string, x: string, a: Attr, rest: string)
    ensures ParseAttr(s) == Some((a, rest)) && rest != [] ==> ParseAttr(s + x) == Some((a, rest + x))
  {
    hide ReadName, SkipWhiteSpace, ParseAttrValue;
    if ParseAttr(s) != Some((a, rest)) || rest == [] {
      return;
    }
    var p := SkipWhiteSpace(s);
    NoName();
    SkipStable(s, x);
    var (name, afterName) := ReadName(p).value;
    SkipOfNothing();
    NameStable(p, x, name, afterName);
    SkipStable(afterName, x);
    var q := SkipWhiteSpace(afterName);
    Behead(q, x);
    SkipStable(q[1..], x);
    ValueStable(SkipWhiteSpace(q[1..]), x, a.value, rest);
  }

  lemma NoName()
    ensures ReadName([]) == None
  {
  }

  lemma SkipOfNothing()
    ensures SkipWhiteSpace([]) == []
  {
  }

  // ---------- nodes ----------

  lemma CommentStable(s: string, x: string, t: Tree, q: string)
    requires "<!--" <= s && ParseComment(s) == Some((t, q)) && q != []
    ensures "<!--" <= s + x && ParseComment(s + x) == Some((t, q + x))
  {
    hide Find;
    var body := s[4..];
    assert (s + x)[4..] == body + x;
    FindStable(body, x, "-->");
    var n := Find(body, "-->");
    assert (body + x)[..n] == body[..n] && (body + x)[n..][3..] == body[n..][3..] + x;
  }

  lemma CDataStable(s: string, x: string, t: Tree, q: string)
    requires "<![CDATA[" <= s && ParseCData(s) == Some((t, q))
    ensures "<![CDATA[" <= s + x && ParseCData(s + x) == Some((t, q + x))
  {
    hide Find;
    var body := s[9..];
    var n := Find(body, "]]>");
    assert (s + x)[9..] == body + x && s[9 + n..] == body[n..];
    AtEndMark(body[n..]);
    FindStable(body, x, "]]>");
    assert (s + x)[9 + n..] == body[n..] + x && (body + x)[..n] == body[..n];
    LongTag(body[n..], x, "]]>");
    AtEndMark(body[n..] + x);
    assert (body[n..] + x)[3..] == body[n..][3..] + x;
  }

  lemma AtEndMark(s: string)
    ensures s == [] ==> ReadText(s, false, "]]>") == None
    ensures "]]>" <= s ==>
      ReadText(s, false, "]]>") == if |s| == 3 then None else Some(("", s[3..]))
  {
  }

  lemma UnknownStable(s: string, x: string, t: Tree, q: string)
    requires s != [] && s[0] == '<' && ParseUnknown(s) == Some((t, q)) && q != []
    ensures ParseUnknown(s + x) == Some((t, q + x)) && '>' in s
  {
    hide IndexOf;
    Behead(s, x);
    IndexStable(s[1..], x, '>');
    var n := IndexOf(s[1..], '>');
    assert (s[1..] + x)[..n] == s[1..][..n] && (s + x)[n + 2..] == s[n + 2..] + x && s[1..][n] == '>';
  }

  lemma IdentifyStable(s: string, x: string)
    requires s != [] && s[0] == '<' && Identify(s) != DeclarationKind && (Identify(s) == UnknownKind ==> '>' in s)
    ensures Identify(s + x) == Identify(s)
  {
    hide IsNameStart;
    if Identify(s) == UnknownKind {
      TagStable(s, x, "<!--", '>');
      TagStable(s, x, "<![CDATA[", '>');
      TagStable(s, x, "<!", '>');
      DeclarationStable(s, x, '>');
      assert |s| > 1;
    } else {
      assert |s| > 1 && (s + x)[1] == s[1];
      SecondByte(s[1]);
      if Identify(s) == CommentKind {
        LongTag(s, x, "<!--");
      } else if Identify(s) == TextKind {
        LongTag(s, x, "<![CDATA[");
      }
    }
  }

  lemma SecondByte(c: char)
    ensures IsNameStart(c) || c == '!' ==> ToLower(c) != '?'
    ensures IsNameStart(c) ==> c != '!'
  {
  }

  lemma DeclarationStable(s: string, x: string, c: char)
    requires c in s && ToLower(c) !in "<?xml"
    ensures StartsWithIgnoreCase(s + x, "<?xml") <==> StartsWithIgnoreCase(s, "<?xml")
  {
    var i :| 0 <= i < |s| && s[i] == c;
    if |s| < 5 {
      assert (s + x)[i] == c && ToLower(c) != "<?xml"[i];
    }
  }

  lemma EndTagStable(s: string, x: string, t: Tree, q: string)
    requires t.Element? && ParseEndTag(s, t) == Some((t, q))
    ensures ParseEndTag(s + x, t) == Some((t, q + x))
  {
    hide SkipWhiteSpace;
    var tag := "</" + t.name;
    LongTag(s, x, tag);
    var p := s[|tag|..];
    assert (s + x)[|tag|..] == p + x;
    SkipStable(p, x);
    Behead(SkipWhiteSpace(p), x);
  }

  lemma PlainStable(p: string, x: string, texts: seq<Tree>, q: string)
    requires p != [] && !IsWhiteSpace(p[0]) && p[0] != '<' && ReadPlainText(p) == Some((texts, q))
    ensures ReadPlainText(p + x) == Some((texts, q + x))
  {
    hide ReadText, IsWhiteSpace, Blank;
    Behead(p, x);
    var (text, rest) := ReadText(p, true, "<").value;
    TextStable(p, x, true, "<", text, rest);
    assert "<" + (rest + x) == ("<" + rest) + x;
  }

  lemma {:induction false} NodeStable(s: string, x: string, t: Tree, q: string)
    requires s != [] && s[0] == '<' && ParseNode(s) == Some((t, q)) && q != []
    ensures ParseNode(s + x) == Some((t, q + x))
    decreases |s|, 1
  {
    hide Identify, ParseComment, ParseCData, ParseUnknown, ParseElement;
    KindsMean(s);
    KindsMean(s + x);
    match Identify(s) {
      case DeclarationKind =>
      case CommentKind => CommentStable(s, x, t, q);
      case TextKind => CDataStable(s, x, t, q);
      case UnknownKind => UnknownStable(s, x, t, q);
      case ElementKind => ElementStable(s, x, t, q);
    }
    IdentifyStable(s, x);
  }

  lemma KindsMean(s: string)
    requires s != []
    ensures Identify(s) == CommentKind ==> "<!--" <= s
    ensures Identify(s) == TextKind ==> "<![CDATA[" <= s
  {
  }

  lemma {:induction false} ElementStable(s: string, x: string, t: Tree, q: string)
    ensures ParseElement(s) == Some((t, q)) ==> ParseElement(s + x) == Some((t, q + x))
    decreases |s|, 0
  {
    hide SkipWhiteSpace, ReadName, ParseTag;
    if ParseElement(s) != Some((t, q)) {
      return;
    }
    var p := SkipWhiteSpace(s);
    SkipStable(s, x);
    Behead(p, x);
    var b := SkipWhiteSpace(p[1..]);
    NoName();
    SkipStable(p[1..], x);
    var (name, rest) := ReadName(b).value;
    NameStable(b, x, name, rest);
    AttributesStable(rest, x, name, [], t, q);
  }

  lemma {:induction false} AttributesStable(s: string, x: string, name: string, attrs: seq<Attr>, t: Tree, q: string)
    requires ParseTag(s, name, attrs) == Some((t, q))
    ensures ParseTag(s + x, name, attrs) == Some((t, q + x))
    decreases |s|, 5
  {
    hide SkipWhiteSpace, ParseTagAt;
    NoTag(name, attrs);
    SkipStable(s, x);
    TagAtStable(SkipWhiteSpace(s), x, name, attrs, t, q);
  }

  lemma NoTag(name: string, attrs: seq<Attr>)
    ensures ParseTagAt([], name, attrs) == None
  {
  }

  lemma {:induction false} TagAtStable(p: string, x: string, name: string, attrs: seq<Attr>, t: Tree, q: string)
    ensures ParseTagAt(p, name, attrs) == Some((t, q)) ==> ParseTagAt(p + x, name, attrs) == Some((t, q + x))
    decreases |p|, 4
  {
    hide ParseAttr, HasName, ParseTag, ParseContent;
    if ParseTagAt(p, name, attrs) != Some((t, q)) {
      return;
    }
    Behead(p, x);
    if p[0] == '/' {
      assert (p + x)[1] == p[1] && (p + x)[2..] == p[2..] + x;
    } else if p[0] == '>' {
      ContentStable(p[1..], x, name, attrs, t, q);
    } else {
      var (attr, rest) := ParseAttr(p).value;
      AttrStable(p, x, attr, rest);
      AttributesStable(rest, x, name, attrs + [attr], t, q);
    }
  }

  lemma {:induction false} ContentStable(s: string, x: string, name: string, attrs: seq<Attr>, t: Tree, q: string)
    requires ParseContent(s, name, attrs) == Some((t, q))
    ensures ParseContent(s + x, name, attrs) == Some((t, q + x))
    decreases |s|, 4
  {
    hide ReadValue, ReadValueAt, ParseEndTag, SkipWhiteSpace;
    var (children, end) := ReadValue(s).value;
    NextStable(s, x);
    ChildrenAtStable(SkipWhiteSpace(s), x, children, end);
    EndTagStable(end, x, t, q);
  }

  lemma ValueIs(s: string)
    ensures ReadValue(s) == ReadValueAt(SkipWhiteSpace(s))
  {
  }

  lemma NextStable(rest: string, x: string)
    requires ReadValue(rest).Some?
    ensures ReadValue(rest) == ReadValueAt(SkipWhiteSpace(rest)) && SkipWhiteSpace(rest) != []
    ensures ReadValue(rest + x) == ReadValueAt(SkipWhiteSpace(rest) + x)
  {
    hide ReadValue, ReadValueAt, SkipWhiteSpace;
    NoValue();
    ValueIs(rest);
    ValueIs(rest + x);
    SkipStable(rest, x);
  }

  lemma NoValue()
    ensures ReadValueAt([]) == None && ReadValue([]) == None
  {
  }

  lemma {:induction false} ChildrenAtStable(p: string, x: string, children: seq<Tree>, q: string)
    requires p != [] && !IsWhiteSpace(p[0])
    ensures ReadValueAt(p) == Some((children, q)) ==> ReadValueAt(p + x) == Some((children, q + x))
    decreases |p|, 2
  {
    hide IsWhiteSpace, ReadPlainText, ParseNode, ReadValue, SkipWhiteSpace;
    Behead(p, x);
    if ReadValueAt(p) != Some((children, q)) {
      return;
    }
    if p[0] != '<' {
      var (texts, rest) := ReadPlainText(p).value;
      PlainStable(p, x, texts, rest);
      NextStable(rest, x);
      ChildrenAtStable(SkipWhiteSpace(rest), x, ReadValue(rest).value.0, q);
    } else if "</" <= p {
      LongTag(p, x, "</");
    } else {
      var (child, rest) := ParseNode(p).value;
      NextStable(rest, x);
      ChildrenAtStable(SkipWhiteSpace(rest), x, ReadValue(rest).value.0, q);
      NodeStable(p, x, child, rest);
      LongTag(p, x, "</");
    }
  }

  // ---------- the printed text as a C string ----------

  lemma CStrIsPrefix(s: string)
    ensures CStr(s) <= s
  {
    if s != [] && s[0] != '\0' {
      CStrIsPrefix(s[1..]);
    }
  }

  /**
   The text of an element as the parser sees it, up to a NUL: it gives the element again, with nothing but
   the line break left, exactly if the element is printable.
   */
  lemma CStringExactly(t: Tree, depth: nat, style: Style)
    requires t.Element? && WhiteStyle(style)
    ensures ParseElement(CStr(PrintNode(t, depth, style))) == Some((t, style.lineBreak)) <==> Printable(t)
  {
    hide *;
    var text := PrintNode(t, depth, style);
    var s := CStr(text);
    RoundTripExactly(t, depth, style, "");
    assert text + "" == text && style.lineBreak + "" == style.lineBreak;
    if Printable(t) {
      PrintedIsCString(t, depth, style);
    } else if ParseElement(s) == Some((t, style.lineBreak)) {
      CStrIsPrefix(text);
      var x := text[|s|..];
      assert s + x == text;
      ElementStable(s, x, t, style.lineBreak);
      ParsedElement(s);
      PrintableParts(t);
      RootStart(t, depth, style, "");
      EndsSelf(PrintCore(t, depth, style) + style.lineBreak);
      NodeLags(t, depth, style, style.lineBreak, PrintCore(t, depth, style) + style.lineBreak, style.lineBreak + x);
    }
  }
}
