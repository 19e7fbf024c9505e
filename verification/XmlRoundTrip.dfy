/** Parsing undoes printing, for every printing style made of white space. */
module XmlRoundTrip {
  import opened Wrappers
  import opened XmlText
  import opened XmlTree
  import opened XmlTextRoundTrip

  // ---------- the trees the theorem is about ----------

  predicate PrintableAttr(a: Attr) {
    ValidName(a.name) && NoHexRef(a.value)
  }

  predicate NoAdjacentTexts(children: seq<Tree>) {
    forall i {:trigger children[i]} :: 0 <= i < |children| - 1 ==> !(IsPlainText(children[i]) && IsPlainText(children[i + 1]))
  }

  /** What TiXmlUnknown::Parse can have read between '<' and '>'. */
  predicate ReadableTag(tag: string) {
    '>' !in tag && (tag == [] || (!IsNameStart(tag[0]) && tag[0] != '/')) &&
    !("!--" <= tag) && !("![CDATA[" <= tag) && !StartsWithIgnoreCase(tag, "?xml")
  }

  predicate PrintableTag(tag: string) {
    '\0' !in tag && ReadableTag(tag)
  }

  predicate Printable(t: Tree) {
    match t
    case Element(name, attrs, children) =>
      ValidName(name) && UniqueNames(attrs) && NoAdjacentTexts(children) &&
      (forall i :: 0 <= i < |attrs| ==> PrintableAttr(attrs[i])) &&
      (forall i :: 0 <= i < |children| ==> Printable(children[i]))
    case Text(text, cdata) =>
      if cdata then '\0' !in text && Avoids(text, "]]>")
      else !Blank(text) && NoHexRef(text) && NoStrayBlanks(text)
    case Comment(comment) => '\0' !in comment && Avoids(comment, "-->")
    case Unknown(tag) => PrintableTag(tag)
  }

  /** A tree whose printed text can be read as a tree of the same shape. */
  predicate Readable(t: Tree) {
    match t
    case Element(name, attrs, children) =>
      ValidName(name) && UniqueNames(attrs) && NoAdjacentTexts(children) &&
      (forall i :: 0 <= i < |attrs| ==> PrintableAttr(attrs[i])) &&
      (forall i :: 0 <= i < |children| ==> Readable(children[i]))
    case Text(text, cdata) => if cdata then Avoids(CStr(text), "]]>") else !Blank(text) && NoHexRef(text)
    case Comment(comment) => Avoids(CStr(comment), "-->")
    case Unknown(tag) => ReadableTag(CStr(tag))
  }

  /** The tree that is read back: texts lose stray blanks, and other values end at a NUL. */
  function Back(t: Tree): (r: Tree)
    ensures t.Element? <==> r.Element?
    ensures IsPlainText(t) <==> IsPlainText(r)
  {
    match t
    case Element(name, attrs, children) => Element(name, attrs, BackAll(children))
    case Text(text, cdata) => if cdata then Text(CStr(text), true) else Text(Normal(text), false)
    case Comment(comment) => Comment(CStr(comment))
    case Unknown(tag) => Unknown(CStr(tag))
  }

  function BackAll(children: seq<Tree>): (r: seq<Tree>)
    ensures |r| == |children|
  {
    if children == [] then [] else [Back(children[0])] + BackAll(children[1..])
  }

  predicate WhiteStyle(style: Style) {
    AllWhiteSpace(style.indent) && AllWhiteSpace(style.lineBreak)
  }

  // ---------- white space around nodes ----------

  lemma {:induction false} IndentIsWhite(style: Style, depth: nat)
    requires WhiteStyle(style)
    ensures AllWhiteSpace(Indent(style, depth))
  {
    if depth > 0 { IndentIsWhite(style, depth - 1); }
  }

  lemma SkipTo(w: string, tail: string)
    requires AllWhiteSpace(w) && tail != [] && !IsWhiteSpace(tail[0])
    ensures SkipWhiteSpace(w + tail) == tail
  {
    SkipBlanks(w, tail);
  }

  // ---------- names and attributes ----------

  lemma {:induction false} SpanOfName(name: string, tail: string)
    requires forall i :: 0 <= i < |name| ==> IsNameChar(name[i])
    requires tail == [] || !IsNameChar(tail[0])
    ensures NameLength(name + tail) == |name|
  {
    if name == [] {
      assert name + tail == tail;
    } else {
      assert (name + tail)[1..] == name[1..] + tail;
      SpanOfName(name[1..], tail);
    }
  }

  lemma NameRoundTrip(name: string, tail: string)
    requires ValidName(name) && (tail == [] || !IsNameChar(tail[0]))
    ensures ReadName(name + tail) == Some((name, tail))
  {
    SpanOfName(name, tail);
  }

  lemma {:induction false} NameIsEncoded(name: string)
    requires forall i :: 0 <= i < |name| ==> IsNameChar(name[i])
    ensures Encode(name) == name && CStr(name) == name
  {
    if name != [] {
      NameIsEncoded(name[1..]);
      assert name == [name[0]] + name[1..];
    }
  }

  lemma ValueRoundTrip(value: string, quote: string, rest: string)
    requires IsQuote(quote) && NoHexRef(value) && rest != []
    ensures ParseAttrValue(quote + Encode(value) + quote + rest) == Some((value, rest))
  {
    hide ReadText, Encode, NoHexRef;
    AttributeValueRoundTrip(value, quote, rest);
    var s := quote + Encode(value) + quote + rest;
    assert s[1..] == Encode(value) + quote + rest;
  }

  lemma AttrFromParts(name: string, q: string, value: string, rest: string)
    requires ValidName(name) && q != [] && !IsWhiteSpace(q[0]) && ParseAttrValue(q) == Some((value, rest))
    ensures ParseAttr(name + ("=" + q)) == Some((Attr(name, value), rest))
  {
    hide ReadName, SkipWhiteSpace, ParseAttrValue, NameLength;
    var s := name + ("=" + q);
    assert s[0] == name[0];
    NameRoundTrip(name, "=" + q);
    assert ("=" + q)[1..] == q;
    NoSkip(s);
    NoSkip("=" + q);
    NoSkip(q);
  }

  lemma AttrRoundTrip(a: Attr, rest: string)
    requires PrintableAttr(a) && rest != []
    ensures ParseAttr(PrintAttr(a) + rest) == Some((a, rest))
  {
    var quote := if '\"' in CStr(a.value) then "'" else "\"";
    var q := quote + Encode(a.value) + quote + rest;
    NameIsEncoded(a.name);
    ValueRoundTrip(a.value, quote, rest);
    AttrFromParts(a.name, q, a.value, rest);
    AttrText(a.name, quote, Encode(a.value), rest);
  }

  lemma AttrText(name: string, quote: string, value: string, rest: string)
    ensures name + "=" + quote + value + quote + rest == name + ("=" + (quote + value + quote + rest))
  {
  }

  lemma TagStep(s: string, p: string, a: Attr, more: string, name: string, before: seq<Attr>)
    requires p != [] && IsNameStart(p[0]) && more != [] && !HasName(before, a.name)
    ensures SkipWhiteSpace(s) == p && ParseAttr(p) == Some((a, more)) ==>
      ParseTag(s, name, before) == ParseTag(more, name, before + [a])
  {
    hide ParseAttr, SkipWhiteSpace, ReadValue, ParseEndTag, ParseContent;
    if ParseAttr(p) == Some((a, more)) {
      assert ParseTagAt(p, name, before) == ParseTag(more, name, before + [a]);
    }
  }

  lemma AttrHead(a: Attr, more: string)
    requires PrintableAttr(a)
    ensures PrintAttr(a) + more != [] && IsNameStart((PrintAttr(a) + more)[0])
  {
    NameIsEncoded(a.name);
    assert (PrintAttr(a) + more)[0] == a.name[0];
  }

  lemma NotSentinel(a: Attr)
    requires PrintableAttr(a)
    ensures a.name != ""
  {
  }

  lemma TagAttr(attrs: seq<Attr>, close: string, name: string, before: seq<Attr>)
    requires attrs != [] && PrintableAttr(attrs[0]) && close != [] && !HasName(before, attrs[0].name)
    requires |attrs| > 1 ==> attrs[1].name != ""
    ensures ParseTag(PrintAttrs(attrs) + close, name, before) ==
            ParseTag(PrintAttrs(attrs[1..]) + close, name, before + [attrs[0]])
  {
    hide ParseTag, ParseAttr, PrintAttr, SkipWhiteSpace, NoHexRef, ValidName;
    var a, more := attrs[0], PrintAttrs(attrs[1..]) + close;
    var p := PrintAttr(a) + more;
    assert PrintAttrs(attrs) + close == " " + p;
    AttrRoundTrip(a, more);
    AttrHead(a, more);
    SkipTo(" ", p);
    TagStep(" " + p, p, a, more, name, before);
  }

  lemma {:induction false} TagAttrs(attrs: seq<Attr>, i: nat, name: string, close: string)
    requires i <= |attrs| && UniqueNames(attrs) && close != []
    requires forall k :: 0 <= k < |attrs| ==> PrintableAttr(attrs[k])
    ensures ParseTag(PrintAttrs(attrs[i..]) + close, name, attrs[..i]) == ParseTag(close, name, attrs)
    decreases |attrs| - i
  {
    hide ParseTag, PrintAttr, PrintableAttr;
    if i == |attrs| {
      assert PrintAttrs(attrs[i..]) + close == close && attrs[..i] == attrs;
    } else {
      if i + 1 < |attrs| { NotSentinel(attrs[i + 1]); }
      TagAttr(attrs[i..], close, name, attrs[..i]);
      assert attrs[i..][1..] == attrs[i + 1..] && attrs[..i] + [attrs[i..][0]] == attrs[..i + 1];
      TagAttrs(attrs, i + 1, name, close);
    }
  }

  // ---------- comments, CDATA sections and unknown tags ----------

  lemma NoTagAcross(v: string, a: char, rest: string)
    requires v != [] && a != '>' && !([a, a, '>'] <= v)
    ensures !([a, a, '>'] <= v + ([a, a, '>'] + rest))
  {
    var s := v + ([a, a, '>'] + rest);
    if |v| < 3 {
      assert s[2] == a;
    } else {
      assert s[..3] == v[..3];
    }
  }

  lemma FindStep(s: string, tag: string)
    requires s != []
    ensures Find(s, tag) == if tag <= s then 0 else 1 + Find(s[1..], tag)
  {
  }

  lemma {:induction false} FindAfter(v: string, a: char, rest: string)
    requires a != '>' && Avoids(v, [a, a, '>'])
    ensures Find(v + ([a, a, '>'] + rest), [a, a, '>']) == |v|
  {
    hide Find;
    var tag := [a, a, '>'];
    var s := v + (tag + rest);
    FindStep(s, tag);
    if v == [] {
      assert s == tag + rest;
    } else {
      FindAfter(v[1..], a, rest);
      assert s[1..] == v[1..] + (tag + rest);
      NoTagAcross(v, a, rest);
    }
  }

  lemma CommentRoundTrip(v: string, rest: string)
    requires Avoids(v, "-->")
    ensures ParseNode("<!--" + v + "-->" + rest) == Some((Comment(v), rest))
  {
    hide Find, Avoids;
    var s := "<!--" + v + "-->" + rest;
    assert s[1] == '!';
    FindAfter(v, '-', rest);
    assert s[4..] == v + (['-', '-', '>'] + rest);
  }

  lemma CDataRoundTrip(v: string, rest: string)
    requires Avoids(v, "]]>") && rest != []
    ensures ParseNode("<![CDATA[" + v + "]]>" + rest) == Some((Text(v, true), rest))
  {
    var end := [']', ']', '>'] + rest;
    CDataText(v, rest, end);
    FindAfter(v, ']', rest);
    CDataParts("<![CDATA[" + v + "]]>" + rest, v, end);
    assert end[3..] == rest;
  }

  lemma CDataText(v: string, rest: string, end: string)
    requires end == [']', ']', '>'] + rest
    ensures var s := "<![CDATA[" + v + "]]>" + rest;
            "<![CDATA[" <= s && s[9..] == v + end && "]]>" <= end
  {
  }

  lemma CDataParts(s: string, v: string, end: string)
    requires "<![CDATA[" <= s && s[9..] == v + end && |end| > 3 && "]]>" <= end
    requires Find(s[9..], "]]>") == |v|
    ensures ParseNode(s) == Some((Text(v, true), end[3..]))
  {
    hide Find, GetChar, StartsWithIgnoreCase;
    assert !StartsWithIgnoreCase(s, "<?xml") by { NotDeclaration(s); }
    assert s[9 + |v|..] == end;
    assert s[1] == '!' && s[2] == '[';
    assert ReadText(end, false, "]]>") == Some(("", end[3..]));
  }

  lemma NotDeclaration(s: string)
    requires |s| > 1 && ToLower(s[1]) != '?'
    ensures !StartsWithIgnoreCase(s, "<?xml")
  {
  }

  /** A tag body followed by '>' starts like body' only if it does so by itself. */
  lemma PrefixInside(v: string, rest: string, prefix: string)
    requires '>' !in prefix && !(prefix <= v)
    ensures !("<" + prefix <= "<" + v + ">" + rest)
  {
    var s := "<" + v + ">" + rest;
    assert forall i :: 0 <= i < |v| ==> s[i + 1] == v[i];
    if |v| < |prefix| {
      assert prefix[|v|] in prefix;
      assert ("<" + prefix)[|v| + 1] != '>' == s[|v| + 1];
    } else {
      var i :| 0 <= i < |prefix| && prefix[i] != v[i];
      assert ("<" + prefix)[i + 1] != s[i + 1];
    }
  }

  lemma DeclarationInside(v: string, rest: string)
    requires !StartsWithIgnoreCase(v, "?xml")
    ensures !StartsWithIgnoreCase("<" + v + ">" + rest, "<?xml")
  {
    var s := "<" + v + ">" + rest;
    assert forall i :: 0 <= i < |v| ==> s[i + 1] == v[i];
    if |v| < 4 {
      assert "<?xml"[|v| + 1] != ToLower('>') == ToLower(s[|v| + 1]);
    } else {
      var i :| 0 <= i < 4 && ToLower(v[i]) != "?xml"[i];
      assert ToLower(s[i + 1]) != "<?xml"[i + 1];
    }
  }

  lemma UnknownIdentified(v: string, rest: string)
    requires ReadableTag(v)
    ensures Identify("<" + v + ">" + rest) == UnknownKind && !("</" <= "<" + v + ">" + rest)
  {
    hide StartsWithIgnoreCase;
    var s := "<" + v + ">" + rest;
    DeclarationInside(v, rest);
    PrefixInside(v, rest, "!--");
    PrefixInside(v, rest, "![CDATA[");
    assert "<" + "!--" == "<!--" && "<" + "![CDATA[" == "<![CDATA[";
    assert s[1] == if v == [] then '>' else v[0];
  }

  lemma UnknownRoundTrip(v: string, rest: string)
    requires ReadableTag(v)
    ensures var s := "<" + v + ">" + rest;
            s[0] == '<' && Identify(s) == UnknownKind && ParseUnknown(s) == Some((Unknown(v), rest))
  {
    hide ReadableTag, Identify, IndexOf;
    UnknownIdentified(v, rest);
    TagEnd(v, rest);
  }

  lemma TagEnd(v: string, rest: string)
    requires ReadableTag(v)
    ensures var s := "<" + v + ">" + rest;
            IndexOf(s[1..], '>') == |v| && s[1..][..|v|] == v && |v| != |s[1..]| && s[|v| + 2..] == rest
  {
    hide IndexOf;
    var s := "<" + v + ">" + rest;
    assert s[1..] == v + (">" + rest);
    IndexOfAppend(v, ">" + rest, '>');
    FirstIsAt(">" + rest, '>');
  }

  lemma NodeIsUnknown(s: string)
    requires s != [] && s[0] == '<' && Identify(s) == UnknownKind
    ensures ParseNode(s) == ParseUnknown(s)
  {
    hide Identify, ParseUnknown;
  }

  lemma FirstIsAt(s: string, c: char)
    requires s != [] && s[0] == c
    ensures IndexOf(s, c) == 0
  {
  }

  // ---------- elements ----------

  lemma CloseEmpty(name: string, attrs: seq<Attr>, rest: string)
    ensures ParseTag(" />" + rest, name, attrs) == Some((Element(name, attrs, []), rest))
  {
    hide ParseAttr, ParseContent, SkipWhiteSpace;
    var p := "/>" + rest;
    assert p[0] == '/' && p[1] == '>' && p[2..] == rest;
    assert " />" + rest == " " + p;
    assert SkipWhiteSpace(" " + p) == p by { BlankSkipped(p); }
    assert ParseTagAt(p, name, attrs) == Some((Element(name, attrs, []), rest));
  }

  lemma BlankSkipped(p: string)
    requires p != [] && !IsWhiteSpace(p[0])
    ensures SkipWhiteSpace(" " + p) == p
  {
    SkipTo(" ", p);
  }

  lemma CloseTag(name: string, t: Tree, rest: string)
    requires t.Element? && t.name == name
    ensures ParseEndTag("</" + name + ">" + rest, t) == Some((t, rest))
  {
    var s := "</" + name + ">" + rest;
    assert s == ("</" + name) + (">" + rest);
    assert s[|"</" + name|..] == ">" + rest;
  }

  lemma CloseContent(name: string, attrs: seq<Attr>, children: seq<Tree>, content: string, rest: string)
    requires ReadValue(content + ("</" + name + ">" + rest)) == Some((children, "</" + name + ">" + rest))
    ensures ParseTag(">" + (content + ("</" + name + ">" + rest)), name, attrs) ==
            Some((Element(name, attrs, children), rest))
  {
    hide ParseAttr, ReadValue, ParseEndTag;
    CloseTag(name, Element(name, attrs, children), rest);
    var s := ">" + (content + ("</" + name + ">" + rest));
    assert s[1..] == content + ("</" + name + ">" + rest);
    assert SkipWhiteSpace(s) == s;
    assert ParseTagAt(s, name, attrs) == ParseContent(s[1..], name, attrs);
  }

  lemma OpenName(name: string, rest: string)
    requires ValidName(name) && rest != [] && !IsNameChar(rest[0])
    ensures ParseNode("<" + (name + rest)) == ParseTag(rest, name, [])
  {
    hide ParseTag, ParseComment, ParseCData, ParseUnknown, StartsWithIgnoreCase, ReadName, SkipWhiteSpace;
    var s := "<" + (name + rest);
    assert s[1..] == name + rest && s[1] == name[0];
    NotDeclaration(s);
    assert Identify(s) == ElementKind;
    NoSkip(s);
    NoSkip(s[1..]);
    NameRoundTrip(name, rest);
    assert ParseElement(s) == ParseTag(rest, name, []);
  }

  lemma NoSkip(s: string)
    requires s != [] && !IsWhiteSpace(s[0])
    ensures SkipWhiteSpace(s) == s
  {
  }

  /** Reading the name of an element and its attributes leads to the parser of what follows them. */
  lemma OpenTag(name: string, attrs: seq<Attr>, close: string)
    requires ValidName(name) && UniqueNames(attrs) && close != [] && (close[0] == ' ' || close[0] == '>')
    requires forall k :: 0 <= k < |attrs| ==> PrintableAttr(attrs[k])
    ensures ParseNode("<" + (name + (PrintAttrs(attrs) + close))) == ParseTag(close, name, attrs)
  {
    hide ParseTag, ParseNode, PrintAttr, PrintableAttr;
    var rest := PrintAttrs(attrs) + close;
    assert rest[0] == ' ' || rest[0] == '>';
    OpenName(name, rest);
    TagAttrs(attrs, 0, name, close);
    assert attrs[0..] == attrs && attrs[..0] == [];
  }

  // ---------- content ----------

  lemma {:induction false} SkippedIsWhite(s: string)
    ensures AllWhiteSpace(s[..|s| - |SkipWhiteSpace(s)|])
  {
    if s != [] && IsWhiteSpace(s[0]) {
      SkippedIsWhite(s[1..]);
      assert SkipWhiteSpace(s) == SkipWhiteSpace(s[1..]);
      hide IsWhiteSpace, SkipWhiteSpace;
      var n := |s| - |SkipWhiteSpace(s)|;
      assert s[..n] == [s[0]] + s[1..][..n - 1];
    }
  }

  lemma ValueSkips(w: string, s: string)
    requires AllWhiteSpace(w)
    ensures ReadValue(w + s) == ReadValue(s)
  {
    hide ReadValueAt;
    SkipBlanks(w, s);
  }

  lemma EncodedTextHead(v: string, more: string)
    requires v != [] && NoHexRef(v) && v[0] != ' '
    ensures Encode(v) + more != [] && (Encode(v) + more)[0] != '<' && !IsWhiteSpace((Encode(v) + more)[0])
  {
    EncodeUnfold(v, more);
    EncodedHead(v[0]);
  }

  lemma {:induction false} SqueezeKeeps(v: string, pending: bool)
    requires !Blank(v)
    ensures !Blank(Squeeze(v, pending))
  {
    if v[0] == ' ' {
      SqueezeKeeps(v[1..], true);
    } else if IsWhiteSpace(v[0]) {
      SqueezeKeeps(v[1..], false);
      var r := Squeeze(v[1..], false);
      assert Squeeze(v, pending) == ((if pending then " " else "") + [v[0]]) + r;
      var i :| 0 <= i < |r| && !IsWhiteSpace(r[i]);
      assert Squeeze(v, pending)[|Squeeze(v, pending)| - |r| + i] == r[i];
    } else {
      assert Squeeze(v, pending)[if pending then 1 else 0] == v[0];
    }
  }

  lemma {:induction false} TrimKeeps(v: string)
    requires !Blank(v)
    ensures !Blank(TrimLeft(v)) && TrimLeft(v) != [] && TrimLeft(v)[0] != ' ' && TrimLeft(TrimLeft(v)) == TrimLeft(v)
  {
    if v[0] == ' ' {
      TrimKeeps(v[1..]);
    }
  }

  lemma PlainTextRead(v: string, w: string, tag: string)
    requires NoHexRef(v) && !Blank(v) && v[0] != ' ' && AllWhiteSpace(w)
    requires |tag| >= 2 && tag[0] == '<'
    ensures var p := Encode(v) + (w + tag);
            p != [] && !IsWhiteSpace(p[0]) && p[0] != '<' &&
            ReadPlainText(p) == Some(([Text(Normal(v), false)], tag))
  {
    hide ReadText, Encode, NoHexRef, Avoids, Squeeze;
    EncodedTextHead(v, w + tag);
    TrimKeeps(v);
    SqueezeKeeps(v, false);
    TextReadBack(v, w, tag[1..]);
    assert "<" + tag[1..] == tag;
  }

  /** A plain text in front of white space and a tag. */
  lemma TextSibling(v: string, more: string, siblings: seq<Tree>, end: string)
    requires NoHexRef(v) && !Blank(v)
    requires ReadValue(more) == Some((siblings, end))
    requires |SkipWhiteSpace(more)| >= 2 && SkipWhiteSpace(more)[0] == '<'
    ensures ReadValue(Encode(v) + more) == Some(([Text(Normal(v), false)] + siblings, end))
  {
    hide ReadPlainText, Encode, NoHexRef, Blank, ParseNode, SkipWhiteSpace, TrimLeft, Squeeze;
    var tag := SkipWhiteSpace(more);
    var w := more[..|more| - |tag|];
    SkippedIsWhite(more);
    assert more == w + tag;
    TrimKeeps(v);
    SkipEncodedBlanks(v, more);
    var u := TrimLeft(v);
    PlainTextRead(u, w, tag);
    ValueSkips(w, tag);
    assert ReadValueAt(Encode(u) + more) == Prepend([Text(Normal(u), false)], ReadValue(tag));
  }

  lemma NodeSibling(t: Tree, core: string, more: string, siblings: seq<Tree>, end: string)
    requires |core| >= 2 && core[0] == '<' && core[1] != '/'
    ensures ParseNode(core + more) == Some((t, more)) && ReadValue(more) == Some((siblings, end)) ==>
      ReadValue(core + more) == Some(([t] + siblings, end))
  {
    hide *;
    var p := core + more;
    assert p[0] == '<' && p[1] == core[1];
    NodeFirst(p, t, more);
    PrependOne(t, siblings, end);
  }

  lemma NodeFirst(p: string, t: Tree, more: string)
    requires |p| >= 2 && p[0] == '<' && p[1] != '/'
    ensures ParseNode(p) == Some((t, more)) ==> ReadValue(p) == Prepend([t], ReadValue(more))
  {
    hide ParseNode, ReadPlainText, Prepend, ReadValue, SkipWhiteSpace;
    NoSkip(p);
    ValueStarts(p);
  }

  lemma ValueStarts(p: string)
    requires SkipWhiteSpace(p) == p
    ensures (p == [] || !IsWhiteSpace(p[0])) && ReadValue(p) == ReadValueAt(p)
  {
    hide ReadValueAt;
  }

  lemma PrependOne(t: Tree, siblings: seq<Tree>, end: string)
    ensures Prepend([t], Some((siblings, end))) == Some(([t] + siblings, end))
  {
  }

  lemma CoreHead(t: Tree, depth: nat, style: Style)
    requires Readable(t) && !IsPlainText(t)
    ensures var core := PrintCore(t, depth, style);
            |core| >= 2 && core[0] == '<' && core[1] != '/'
  {
    hide PrintAttrs, PrintContent, UniqueNames, NoAdjacentTexts, Avoids;
    match t {
      case Element(name, _, _) => NameIsEncoded(name);
      case Text(text, _) =>
      case Comment(comment) =>
      case Unknown(tag) =>
    }
  }

  lemma EndOfValue(w: string, end: string)
    requires AllWhiteSpace(w) && "</" <= end
    ensures ReadValue(w + end) == Some(([], end)) && SkipWhiteSpace(w + end) == end
  {
    hide ParseNode, ReadPlainText;
    SkipTo(w, end);
    assert ReadValueAt(end) == Some(([], end));
  }

  // ---------- main result ----------

  predicate ReadableSiblings(children: seq<Tree>) {
    NoAdjacentTexts(children) && forall i :: 0 <= i < |children| ==> Readable(children[i])
  }

  lemma SiblingsText(children: seq<Tree>, depth: nat, style: Style, w: string, tail: string)
    requires children != []
    ensures w + (PrintSiblings(children, depth, style) + tail) ==
            (w + Indent(style, depth)) +
            (PrintCore(children[0], depth, style) + (style.lineBreak + (PrintSiblings(children[1..], depth, style) + tail)))
  {
    hide PrintCore, Indent;
  }

  lemma ContentText(children: seq<Tree>, depth: nat, style: Style, end: string)
    requires !IsSimple(children)
    ensures PrintContent(children, depth, style) + end ==
            style.lineBreak + (PrintSiblings(children, depth + 1, style) + (Indent(style, depth) + end))
  {
    hide PrintSiblings, Indent;
  }

  lemma {:induction false} SiblingsRoundTrip(children: seq<Tree>, depth: nat, style: Style,
                                             w: string, w2: string, end: string)
    requires ReadableSiblings(children) && WhiteStyle(style)
    requires AllWhiteSpace(w) && AllWhiteSpace(w2) && "</" <= end
    ensures ReadValue(w + (PrintSiblings(children, depth, style) + (w2 + end))) == Some((BackAll(children), end))
    ensures var s := SkipWhiteSpace(w + (PrintSiblings(children, depth, style) + (w2 + end)));
            children == [] || !IsPlainText(children[0]) ==> |s| >= 2 && s[0] == '<'
    decreases children, 0
  {
    hide PrintCore, ReadValue, Readable, SkipWhiteSpace, PrintNode;
    if children == [] {
      assert w + (PrintSiblings(children, depth, style) + (w2 + end)) == (w + w2) + end;
      EndOfValue(w + w2, end);
    } else {
      var t, core := children[0], PrintCore(children[0], depth, style);
      var more := style.lineBreak + (PrintSiblings(children[1..], depth, style) + (w2 + end));
      SiblingsRoundTrip(children[1..], depth, style, style.lineBreak, w2, end);
      IndentIsWhite(style, depth);
      var indent := w + Indent(style, depth);
      SiblingsText(children, depth, style, w, w2 + end);
      FirstSibling(t, depth, style, more, BackAll(children[1..]), end);
      ValueSkips(indent, core + more);
      if !IsPlainText(t) {
        CoreHead(t, depth, style);
        SkipTo(indent, core + more);
      }
    }
  }

  lemma {:induction false} FirstSibling(t: Tree, depth: nat, style: Style, more: string, siblings: seq<Tree>, end: string)
    requires Readable(t) && WhiteStyle(style) && more != []
    requires ReadValue(more) == Some((siblings, end))
    requires IsPlainText(t) ==> |SkipWhiteSpace(more)| >= 2 && SkipWhiteSpace(more)[0] == '<'
    ensures ReadValue(PrintCore(t, depth, style) + more) == Some(([Back(t)] + siblings, end))
    decreases t, 2
  {
    hide ReadValue, ParseNode, SkipWhiteSpace;
    if IsPlainText(t) {
      TextSibling(t.text, more, siblings, end);
    } else {
      CoreHead(t, depth, style);
      NodeRoundTrip(t, depth, style, more);
      NodeSibling(Back(t), PrintCore(t, depth, style), more, siblings, end);
    }
  }

  lemma {:induction false} ContentRoundTrip(children: seq<Tree>, depth: nat, style: Style, end: string)
    requires ReadableSiblings(children) && WhiteStyle(style) && "</" <= end
    ensures ReadValue(PrintContent(children, depth, style) + end) == Some((BackAll(children), end))
    decreases children, 1
  {
    hide ReadValue, PrintCore, PrintSiblings, SkipWhiteSpace, Printable, Indent;
    if IsSimple(children) {
      EndOfValue([], end);
      assert [] + end == end;
      FirstSibling(children[0], depth + 1, style, end, [], end);
      assert [Back(children[0])] + [] == BackAll(children);
    } else {
      var w, w2 := style.lineBreak, Indent(style, depth);
      IndentIsWhite(style, depth);
      SiblingsRoundTrip(children, depth + 1, style, w, w2, end);
      ContentText(children, depth, style, end);
    }
  }

  lemma NameOnly(name: string)
    requires ValidName(name)
    ensures CStr(name) == name
  {
    NameIsEncoded(name);
  }

  lemma EmptyElementText(name: string, attrs: seq<Attr>, depth: nat, style: Style, rest: string)
    requires CStr(name) == name
    ensures PrintCore(Element(name, attrs, []), depth, style) + rest ==
            "<" + (name + (PrintAttrs(attrs) + (" />" + rest)))
  {
    hide PrintAttrs, CStr;
  }

  lemma ElementText(name: string, attrs: seq<Attr>, children: seq<Tree>, depth: nat, style: Style, rest: string)
    requires CStr(name) == name && children != []
    ensures PrintCore(Element(name, attrs, children), depth, style) + rest ==
            "<" + (name + (PrintAttrs(attrs) +
              (">" + (PrintContent(children, depth, style) + ("</" + name + ">" + rest)))))
  {
    hide PrintAttrs, PrintContent, CStr;
  }

  lemma {:induction false} ElementRoundTrip(name: string, attrs: seq<Attr>, children: seq<Tree>,
                                            depth: nat, style: Style, rest: string)
    requires ValidName(name) && UniqueNames(attrs) && ReadableSiblings(children) && WhiteStyle(style)
    requires forall i :: 0 <= i < |attrs| ==> PrintableAttr(attrs[i])
    ensures ParseNode(PrintCore(Element(name, attrs, children), depth, style) + rest) ==
            Some((Element(name, attrs, BackAll(children)), rest))
    decreases children, 2
  {
    hide *;
    NameOnly(name);
    if children == [] {
      OpenTag(name, attrs, " />" + rest);
      CloseEmpty(name, attrs, rest);
      EmptyElementText(name, attrs, depth, style, rest);
      NoneBack();
    } else {
      var content, end := PrintContent(children, depth, style), "</" + name + ">" + rest;
      ContentRoundTrip(children, depth, style, end);
      OpenTag(name, attrs, ">" + (content + end));
      CloseContent(name, attrs, BackAll(children), content, rest);
      ElementText(name, attrs, children, depth, style, rest);
    }
  }

  lemma NoneBack()
    ensures BackAll([]) == []
  {
  }

  /** A readable node other than plain text is read back, with the cursor right after it. */
  lemma {:induction false} NodeRoundTrip(t: Tree, depth: nat, style: Style, rest: string)
    requires Readable(t) && !IsPlainText(t) && WhiteStyle(style) && rest != []
    ensures ParseNode(PrintCore(t, depth, style) + rest) == Some((Back(t), rest))
    decreases t, 1
  {
    hide ParseNode, PrintAttrs, PrintContent, Avoids, ReadableTag;
    match t {
      case Element(name, attrs, children) =>
        ElementRoundTrip(name, attrs, children, depth, style, rest);
      case Text(text, _) => CDataRoundTrip(CStr(text), rest);
      case Comment(comment) => CommentRoundTrip(CStr(comment), rest);
      case Unknown(tag) =>
        UnknownRoundTrip(CStr(tag), rest);
        NodeIsUnknown("<" + CStr(tag) + ">" + rest);
    }
  }

  /** What is read back from the printed text of any readable element, in any white-space style. */
  lemma RootReadBack(root: Tree, depth: nat, style: Style, rest: string)
    requires Readable(root) && root.Element? && WhiteStyle(style)
    ensures ParseElement(PrintNode(root, depth, style) + rest) == Some((Back(root), style.lineBreak + rest))
  {
    hide ParseElement, ParseNode, PrintCore, Readable, Back;
    var core, after := PrintCore(root, depth, style), style.lineBreak + rest;
    RootParts(root, depth, style, after);
    IndentIsWhite(style, depth);
    CoreHead(root, depth, style);
    ElementFromNode(core + after, Back(root), after);
    ElementSkips(Indent(style, depth), core + after);
    assert PrintNode(root, depth, style) + rest == Indent(style, depth) + (core + after);
  }

  lemma RootParts(root: Tree, depth: nat, style: Style, rest: string)
    requires Readable(root) && root.Element? && WhiteStyle(style)
    ensures ParseNode(PrintCore(root, depth, style) + rest) == Some((Back(root), rest))
  {
    hide PrintCore, ParseNode, PrintableAttr;
    ElementRoundTrip(root.name, root.attrs, root.children, depth, style, rest);
  }

  lemma {:induction false} BackChild(children: seq<Tree>, i: nat)
    requires i < |children|
    ensures BackAll(children)[i] == Back(children[i])
  {
    hide Back;
    if i > 0 {
      BackChild(children[1..], i - 1);
    }
  }

  /** A readable tree comes back unchanged exactly when it is printable; every printable tree is readable. */
  lemma {:induction false} BackIsSame(t: Tree)
    ensures Readable(t) && Back(t) == t <==> Printable(t)
  {
    hide NoAdjacentTexts, UniqueNames, PrintableAttr, BackAll, Normal, NoStrayBlanks, NoHexRef, Avoids, Blank, ReadableTag;
    match t {
      case Element(_, _, children) =>
        forall i | 0 <= i < |children|
          ensures BackAll(children)[i] == Back(children[i])
          ensures Readable(children[i]) && Back(children[i]) == children[i] <==> Printable(children[i])
        {
          BackChild(children, i);
          BackIsSame(children[i]);
        }
        assert BackAll(children) == children <==> forall i :: 0 <= i < |children| ==> BackAll(children)[i] == children[i];
      case Text(text, cdata) => if !cdata { NormalFixed(text); }
      case Comment(comment) =>
      case Unknown(tag) =>
    }
  }

  /** Parsing undoes printing, in any white-space style and whatever follows. */
  lemma RootRoundTrip(root: Tree, depth: nat, style: Style, rest: string)
    requires Printable(root) && root.Element? && WhiteStyle(style)
    ensures ParseElement(PrintNode(root, depth, style) + rest) == Some((root, style.lineBreak + rest))
  {
    hide *;
    BackIsSame(root);
    RootReadBack(root, depth, style, rest);
  }

  lemma ElementSkips(w: string, s: string)
    requires AllWhiteSpace(w)
    ensures ParseElement(w + s) == ParseElement(s)
  {
    hide ReadName, ParseTag, SkipWhiteSpace;
    SkipBlanks(w, s);
  }

  lemma ElementFromNode(s: string, t: Tree, rest: string)
    requires s != [] && s[0] == '<' && ParseNode(s) == Some((t, rest)) && t.Element?
    ensures ParseElement(s) == Some((t, rest))
  {
    hide ParseElement, Identify;
  }

  // ---------- the printed text is a C string ----------

  lemma {:induction false} EncodedHasNoNul(s: string)
    requires NoHexRef(s)
    ensures '\0' !in Encode(s)
  {
    if s != [] {
      EncodedHasNoNul(s[1..]);
      assert '\0' !in EncodeChar(s[0]);
    }
  }

  lemma {:induction false} AttrsHaveNoNul(attrs: seq<Attr>)
    requires forall i :: 0 <= i < |attrs| ==> PrintableAttr(attrs[i])
    ensures '\0' !in PrintAttrs(attrs)
  {
    hide PrintableAttr;
    if attrs != [] {
      AttrHasNoNul(attrs[0]);
      AttrsHaveNoNul(attrs[1..]);
    }
  }

  lemma AttrHasNoNul(a: Attr)
    requires PrintableAttr(a)
    ensures '\0' !in PrintAttr(a)
  {
    hide Encode, NoHexRef;
    NameIsEncoded(a.name);
    EncodedHasNoNul(a.value);
  }

  lemma {:induction false} PrintedIsCString(t: Tree, depth: nat, style: Style)
    requires Printable(t) && WhiteStyle(style)
    ensures '\0' !in PrintCore(t, depth, style) && '\0' !in PrintNode(t, depth, style)
    decreases t, 1
  {
    hide Encode, NoHexRef, PrintAttrs, PrintContent, Avoids, ValidName, PrintableAttr;
    IndentIsWhite(style, depth);
    match t {
      case Element(name, attrs, children) =>
        AttrsHaveNoNul(attrs);
        SiblingsAreCString(children, depth, style);
      case Text(text, cdata) => if !cdata { EncodedHasNoNul(text); }
      case Comment(comment) =>
      case Unknown(tag) =>
    }
  }

  lemma {:induction false} SiblingsAreCString(children: seq<Tree>, depth: nat, style: Style)
    requires (forall i :: 0 <= i < |children| ==> Printable(children[i])) && WhiteStyle(style)
    ensures '\0' !in PrintContent(children, depth, style)
    decreases children, 1
  {
    hide PrintCore, Printable;
    if IsSimple(children) {
      PrintedIsCString(children[0], depth + 1, style);
    } else {
      IndentIsWhite(style, depth);
      AllAreCString(children, depth + 1, style);
    }
  }

  lemma {:induction false} AllAreCString(children: seq<Tree>, depth: nat, style: Style)
    requires (forall i :: 0 <= i < |children| ==> Printable(children[i])) && WhiteStyle(style)
    ensures '\0' !in PrintSiblings(children, depth, style)
    decreases children, 0
  {
    hide PrintNode, Printable;
    if children != [] {
      PrintedIsCString(children[0], depth, style);
      AllAreCString(children[1..], depth, style);
    }
  }
}
