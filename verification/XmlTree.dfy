/** TinyXML's document level, on values: trees, what is printed for one, and what is read back. */
module XmlTree {
  import opened Wrappers
  import opened XmlText

  datatype Attr = Attr(name: string, value: string)

  datatype Tree =
    | Element(name: string, attrs: seq<Attr>, children: seq<Tree>)
    | Text(text: string, cdata: bool)
    | Comment(comment: string)
    | Unknown(tag: string)

  // ---------- attribute lists ----------

  predicate HasName(attrs: seq<Attr>, name: string) {
    exists i :: 0 <= i < |attrs| && attrs[i].name == name
  }

  function IndexOfName(attrs: seq<Attr>, name: string): (k: nat)
    ensures k <= |attrs| && (k < |attrs| <==> HasName(attrs, name))
    ensures k < |attrs| ==> attrs[k].name == name
    ensures forall i :: 0 <= i < k ==> attrs[i].name != name
  {
    if attrs == [] || attrs[0].name == name then 0 else 1 + IndexOfName(attrs[1..], name)
  }

  predicate UniqueNames(attrs: seq<Attr>) {
    forall i, j :: 0 <= i < j < |attrs| ==> attrs[i].name != attrs[j].name
  }

  /** Next() takes an attribute without name and value for the sentinel of the list. */
  predicate LooksLikeSentinel(a: Attr) {
    a.name == "" && a.value == ""
  }

  /** How many attributes a walk by First and Next visits. */
  function Visited(attrs: seq<Attr>): (n: nat)
    ensures n <= |attrs|
    ensures n == |attrs| <==> forall i :: 1 <= i < |attrs| ==> !LooksLikeSentinel(attrs[i])
  {
    if attrs == [] then 0 else VisitedFrom(attrs, 1)
  }

  function VisitedFrom(attrs: seq<Attr>, i: nat): (n: nat)
    requires i <= |attrs|
    ensures i <= n <= |attrs| && (n < |attrs| ==> LooksLikeSentinel(attrs[n]))
    ensures forall k :: i <= k < n ==> !LooksLikeSentinel(attrs[k])
    decreases |attrs| - i
  {
    if i == |attrs| || LooksLikeSentinel(attrs[i]) then i else VisitedFrom(attrs, i + 1)
  }

  // ---------- copying ----------

  /** The attribute list after SetAttribute: an existing name gets the value, a new one comes last. */
  function SetAttr(attrs: seq<Attr>, name: string, value: string): seq<Attr> {
    var k := IndexOfName(attrs, name);
    if k < |attrs| then attrs[k := Attr(name, value)] else attrs + [Attr(name, value)]
  }

  /** The value of the attribute of that name is overwritten in place; if there is none, it comes last. */
  lemma SetAttrMeans(attrs: seq<Attr>, name: string, value: string)
    requires UniqueNames(attrs)
    ensures var r := SetAttr(attrs, name, value);
            (forall i :: 0 <= i < |attrs| ==> r[i] == if attrs[i].name == name then Attr(name, value) else attrs[i]) &&
            if exists i :: 0 <= i < |attrs| && attrs[i].name == name then |r| == |attrs|
            else |r| == |attrs| + 1 && r[|attrs|] == Attr(name, value)
  {
  }

  /** What CopyTo has set after k attributes; Name() and Value() are C strings. */
  function CopyAttrs(attrs: seq<Attr>, k: nat): seq<Attr>
    requires k <= |attrs|
  {
    if k == 0 then []
    else SetAttr(CopyAttrs(attrs, k - 1), CStr(attrs[k - 1].name), CStr(attrs[k - 1].value))
  }

  /** What Clone makes of a tree. */
  function Copied(t: Tree): Tree {
    match t
    case Element(name, attrs, children) =>
      Element(CStr(name), CopyAttrs(attrs, Visited(attrs)), CopiedAll(children))
    case Text(text, cdata) => Text(CStr(text), cdata)
    case Comment(comment) => Comment(CStr(comment))
    case Unknown(tag) => Unknown(CStr(tag))
  }

  function CopiedAll(children: seq<Tree>): (r: seq<Tree>)
    ensures |r| == |children| && forall i :: 0 <= i < |r| ==> r[i] == Copied(children[i])
  {
    if children == [] then [] else CopiedAll(children[..|children| - 1]) + [Copied(children[|children| - 1])]
  }

  // ---------- printing ----------

  /** SetIndent and SetLineBreak; stream printing sets both to the empty string. */
  datatype Style = Style(indent: string, lineBreak: string)

  function Indent(style: Style, depth: nat): string {
    if depth == 0 then [] else style.indent + Indent(style, depth - 1)
  }

  function PrintAttr(a: Attr): string {
    var quote := if '\"' in CStr(a.value) then "'" else "\"";
    Encode(a.name) + "=" + quote + Encode(a.value) + quote
  }

  /** A value is put between single quotes exactly if it holds a double quote in front of its first NUL. */
  lemma QuoteChosen(a: Attr)
    ensures var s := PrintAttr(a);
            s[|s| - 1] == (if exists k :: 0 <= k < |a.value| && a.value[k] == '\"' && '\0' !in a.value[..k] then '\'' else '\"')
  {
    QuoteSeen(a.value);
  }

  lemma {:induction false} QuoteSeen(s: string)
    ensures '\"' in CStr(s) <==> exists k :: 0 <= k < |s| && s[k] == '\"' && '\0' !in s[..k]
  {
    if s != [] && s[0] != '\0' {
      QuoteSeen(s[1..]);
      forall k | 0 <= k < |s| - 1
        ensures '\0' !in s[1..][..k] <==> '\0' !in s[..k + 1]
      {
        assert s[..k + 1] == [s[0]] + s[1..][..k];
      }
      if k :| 0 <= k < |s[1..]| && s[1..][k] == '\"' && '\0' !in s[1..][..k] {
        assert s[k + 1] == '\"' && '\0' !in s[..k + 1];
      }
      if k :| 0 < k < |s| && s[k] == '\"' && '\0' !in s[..k] {
        assert s[1..][k - 1] == '\"' && '\0' !in s[1..][..k - 1];
      }
    }
  }

  function PrintAttrs(attrs: seq<Attr>): string {
    if attrs == [] then []
    else if |attrs| > 1 && LooksLikeSentinel(attrs[1]) then " " + PrintAttr(attrs[0])
    else " " + PrintAttr(attrs[0]) + PrintAttrs(attrs[1..])
  }

  predicate IsPlainText(t: Tree) {
    t.Text? && !t.cdata
  }

  /** The children that VisitEnter prints on the line of their parent: one plain text. */
  predicate IsSimple(children: seq<Tree>) {
    |children| == 1 && IsPlainText(children[0])
  }

  /** One node, without the indentation before it and the line break after it. */
  function PrintCore(t: Tree, depth: nat, style: Style): string
    decreases t, 1
  {
    match t
    case Element(name, attrs, children) =>
      "<" + CStr(name) + PrintAttrs(attrs) +
      (if children == [] then " />"
       else ">" + PrintContent(children, depth, style) + "</" + CStr(name) + ">")
    case Text(text, cdata) => if cdata then "<![CDATA[" + CStr(text) + "]]>" else Encode(text)
    case Comment(comment) => "<!--" + CStr(comment) + "-->"
    case Unknown(tag) => "<" + CStr(tag) + ">"
  }

  function PrintContent(children: seq<Tree>, depth: nat, style: Style): string
    decreases children, 1
  {
    if IsSimple(children) then PrintCore(children[0], depth + 1, style)
    else style.lineBreak + PrintSiblings(children, depth + 1, style) + Indent(style, depth)
  }

  function PrintSiblings(children: seq<Tree>, depth: nat, style: Style): string
    decreases children, 0
  {
    if children == [] then []
    else PrintNode(children[0], depth, style) + PrintSiblings(children[1..], depth, style)
  }

  /** A node on lines of its own, as the visitor prints it outside simple text mode. */
  function PrintNode(t: Tree, depth: nat, style: Style): string
    decreases t, 2
  {
    Indent(style, depth) + PrintCore(t, depth, style) + style.lineBreak
  }

  /** A line of a printed document: how deep it is indented and what it says. */
  datatype Line = Line(depth: nat, text: string)

  /**
   Start and end tag on lines as deep as the element, and each child one step deeper; everything else,
   also an element with one plain text only, is one line.
   */
  function LinesOf(t: Tree, depth: nat): seq<Line> {
    match t
    case Element(name, attrs, children) =>
      var open, close := "<" + CStr(name) + PrintAttrs(attrs), "</" + CStr(name) + ">";
      if children == [] then [Line(depth, open + " />")]
      else if IsSimple(children) then [Line(depth, open + ">" + Encode(children[0].text) + close)]
      else [Line(depth, open + ">")] + LinesOfAll(children, depth + 1) + [Line(depth, close)]
    case Text(text, cdata) => [Line(depth, if cdata then "<![CDATA[" + CStr(text) + "]]>" else Encode(text))]
    case Comment(comment) => [Line(depth, "<!--" + CStr(comment) + "-->")]
    case Unknown(tag) => [Line(depth, "<" + CStr(tag) + ">")]
  }

  function LinesOfAll(children: seq<Tree>, depth: nat): seq<Line> {
    if children == [] then [] else LinesOf(children[0], depth) + LinesOfAll(children[1..], depth)
  }

  function Layout(lines: seq<Line>, style: Style): string {
    if lines == [] then []
    else (Indent(style, lines[0].depth) + lines[0].text + style.lineBreak) + Layout(lines[1..], style)
  }

  lemma {:induction false} LayoutJoin(a: seq<Line>, b: seq<Line>, style: Style)
    ensures Layout(a + b, style) == Layout(a, style) + Layout(b, style)
  {
    if a == [] {
      assert a + b == b;
    } else {
      assert (a + b)[1..] == a[1..] + b;
      LayoutJoin(a[1..], b, style);
    }
  }

  lemma LayoutOne(depth: nat, text: string, style: Style)
    ensures Layout([Line(depth, text)], style) == Indent(style, depth) + text + style.lineBreak
  {
  }

  /** A document is printed line by line. */
  lemma {:induction false} PrintedLines(t: Tree, depth: nat, style: Style)
    ensures PrintNode(t, depth, style) == Layout(LinesOf(t, depth), style)
    decreases t, 1
  {
    hide Layout, PrintSiblings, PrintAttrs, CStr, Encode;
    if t.Element? && t.children != [] && !IsSimple(t.children) {
      PrintedSiblings(t.children, depth + 1, style);
      Between("<" + CStr(t.name) + PrintAttrs(t.attrs), PrintContent(t.children, depth, style), CStr(t.name));
      LinesJoined("<" + CStr(t.name) + PrintAttrs(t.attrs) + ">", LinesOfAll(t.children, depth + 1),
        "</" + CStr(t.name) + ">", depth, style);
    } else {
      if t.Element? && t.children != [] {
        assert PrintContent(t.children, depth, style) == Encode(t.children[0].text);
        Between("<" + CStr(t.name) + PrintAttrs(t.attrs), Encode(t.children[0].text), CStr(t.name));
      }
      assert LinesOf(t, depth) == [Line(depth, PrintCore(t, depth, style))];
      LayoutOne(depth, PrintCore(t, depth, style), style);
    }
  }

  lemma Between(open: string, content: string, name: string)
    ensures open + (">" + content + "</" + name + ">") == (open + ">") + content + ("</" + name + ">")
  {
  }

  lemma LinesJoined(open: string, inner: seq<Line>, close: string, depth: nat, style: Style)
    ensures Layout([Line(depth, open)] + inner + [Line(depth, close)], style) ==
            Indent(style, depth) + (open + (style.lineBreak + Layout(inner, style) + Indent(style, depth)) + close) + style.lineBreak
  {
    hide Layout, Indent;
    LayoutJoin([Line(depth, open)], inner, style);
    LayoutJoin([Line(depth, open)] + inner, [Line(depth, close)], style);
    LayoutOne(depth, open, style);
    LayoutOne(depth, close, style);
  }

  lemma {:induction false} PrintedSiblings(children: seq<Tree>, depth: nat, style: Style)
    ensures PrintSiblings(children, depth, style) == Layout(LinesOfAll(children, depth), style)
    decreases children, 0
  {
    hide PrintNode, LinesOf;
    if children != [] {
      PrintedLines(children[0], depth, style);
      PrintedSiblings(children[1..], depth, style);
      LayoutJoin(LinesOf(children[0], depth), LinesOfAll(children[1..], depth), style);
    }
  }

  // ---------- parsing ----------

  function UnquotedLength(s: string): (n: nat)
    ensures n <= |s|
  {
    if s == [] || IsWhiteSpace(s[0]) || s[0] == '/' || s[0] == '>' then 0 else 1 + UnquotedLength(s[1..])
  }

  predicate HasQuote(s: string) {
    '\'' in s || '\"' in s
  }

  function ParseAttrValue(s: string): (r: Option<(string, string)>)
    requires s != []
    ensures r.Some? ==> |r.value.1| <= |s|
  {
    if s[0] == '\'' then ReadText(s[1..], false, "'")
    else if s[0] == '\"' then ReadText(s[1..], false, "\"")
    else
      var n := UnquotedLength(s);
      if HasQuote(s[..n]) then None else Some((s[..n], s[n..]))
  }

  function ParseAttr(s: string): (r: Option<(Attr, string)>)
    ensures r.Some? ==> ValidName(r.value.0.name) && |r.value.1| < |s|
  {
    match ReadName(SkipWhiteSpace(s))
    case None => None
    case Some((name, afterName)) =>
      var p := SkipWhiteSpace(afterName);
      if p == [] || p[0] != '=' then None
      else
        var q := SkipWhiteSpace(p[1..]);
        if q == [] then None
        else match ParseAttrValue(q)
          case None => None
          case Some((value, rest)) => Some((Attr(name, value), rest))
  }

  function ToLower(c: char): char {
    if 'A' <= c <= 'Z' then (c as int + 32) as char else c
  }

  predicate StartsWithIgnoreCase(s: string, tag: string) {
    |tag| <= |s| && forall i :: 0 <= i < |tag| ==> ToLower(s[i]) == tag[i]
  }

  /** A declaration is told by its first five characters, the letters in any case. */
  lemma DeclarationMeans(s: string)
    ensures StartsWithIgnoreCase(s, "<?xml") <==>
            |s| >= 5 && s[0] == '<' && s[1] == '?' && s[2] in "xX" && s[3] in "mM" && s[4] in "lL"
  {
    if StartsWithIgnoreCase(s, "<?xml") {
      assert ToLower(s[0]) == '<' && ToLower(s[1]) == '?' && ToLower(s[2]) == 'x';
      assert ToLower(s[3]) == 'm' && ToLower(s[4]) == 'l';
    }
  }

  datatype NodeKind = ElementKind | TextKind | CommentKind | UnknownKind | DeclarationKind

  /** What Identify makes of a cursor at a '<'. */
  function Identify(s: string): NodeKind
    requires s != []
  {
    if StartsWithIgnoreCase(s, "<?xml") then DeclarationKind
    else if "<!--" <= s then CommentKind
    else if "<![CDATA[" <= s then TextKind
    else if "<!" <= s then UnknownKind
    else if |s| > 1 && IsNameStart(s[1]) then ElementKind
    else UnknownKind
  }

  /** Where tag first occurs in s, or the length of s. */
  function Find(s: string, tag: string): (n: nat)
    ensures n <= |s| && (n < |s| ==> tag <= s[n..])
  {
    if s == [] || tag <= s then 0 else 1 + Find(s[1..], tag)
  }

  function ParseComment(s: string): (r: Option<(Tree, string)>)
    requires "<!--" <= s
    ensures r.Some? && |r.value.1| < |s|
  {
    var n := Find(s[4..], "-->");
    Some((Comment(s[4..][..n]), if n == |s[4..]| then [] else s[4..][n..][3..]))
  }

  function ParseCData(s: string): (r: Option<(Tree, string)>)
    requires "<![CDATA[" <= s
    ensures r.Some? ==> |r.value.1| < |s|
  {
    var n := Find(s[9..], "]]>");
    match ReadText(s[9 + n..], false, "]]>")
    case None => None
    case Some((_, rest)) => Some((Text(s[9..][..n], true), rest))
  }

  function ParseUnknown(s: string): (r: Option<(Tree, string)>)
    requires s != [] && s[0] == '<'
    ensures r.Some? && |r.value.1| < |s|
  {
    var n := IndexOf(s[1..], '>');
    Some((Unknown(s[1..][..n]), if n == |s[1..]| then [] else s[n + 2..]))
  }

  /** Identify and the Parse method it selects.  Declarations are not modelled and count as failures. */
  function ParseNode(s: string): (r: Option<(Tree, string)>)
    requires s != [] && s[0] == '<'
    ensures r.Some? ==> |r.value.1| < |s|
    decreases |s|, 1
  {
    match Identify(s)
    case DeclarationKind => None
    case CommentKind => ParseComment(s)
    case TextKind => ParseCData(s)
    case UnknownKind => ParseUnknown(s)
    case ElementKind => ParseElement(s)
  }

  function ParseElement(s: string): (r: Option<(Tree, string)>)
    ensures r.Some? ==> r.value.0.Element? && |r.value.1| < |s|
    decreases |s|, 0
  {
    var p := SkipWhiteSpace(s);
    if p == [] || p[0] != '<' then None
    else match ReadName(SkipWhiteSpace(p[1..]))
      case None => None
      case Some((name, rest)) => if rest == [] then None else ParseTag(rest, name, [])
  }

  /** The loop over attributes up to the end of the element. */
  function ParseTag(s: string, name: string, attrs: seq<Attr>): (r: Option<(Tree, string)>)
    ensures r.Some? ==> r.value.0.Element? && |r.value.1| < |s|
    decreases |s|, 5
  {
    ParseTagAt(SkipWhiteSpace(s), name, attrs)
  }

  function ParseTagAt(p: string, name: string, attrs: seq<Attr>): (r: Option<(Tree, string)>)
    ensures r.Some? ==> r.value.0.Element? && |r.value.1| < |p|
    decreases |p|, 4
  {
    if p == [] then None
    else if p[0] == '/' then
      if |p| > 1 && p[1] == '>' then Some((Element(name, attrs, []), p[2..])) else None
    else if p[0] == '>' then ParseContent(p[1..], name, attrs)
    else match ParseAttr(p)
      case None => None
      case Some((attr, rest)) =>
        if rest == [] || HasName(attrs, attr.name) then None else ParseTag(rest, name, attrs + [attr])
  }

  function ParseContent(s: string, name: string, attrs: seq<Attr>): (r: Option<(Tree, string)>)
    ensures r.Some? ==> r.value.0.Element? && |r.value.1| < |s|
    decreases |s|, 4
  {
    match ReadValue(s)
    case None => None
    case Some((children, q)) => ParseEndTag(q, Element(name, attrs, children))
  }

  function ParseEndTag(s: string, t: Tree): (r: Option<(Tree, string)>)
    requires t.Element?
    ensures r.Some? ==> r.value.0 == t && |r.value.1| < |s|
  {
    if !("</" + t.name <= s) then None
    else
      var q := SkipWhiteSpace(s[|"</" + t.name|..]);
      if q == [] || q[0] != '>' then None else Some((t, q[1..]))
  }

  /** A text node, dropped when blank; the cursor goes back to the '<' that ended it. */
  function ReadPlainText(p: string): (r: Option<(seq<Tree>, string)>)
    requires p != [] && !IsWhiteSpace(p[0]) && p[0] != '<'
    ensures r.Some? ==> |r.value.1| < |p|
  {
    match ReadText(p, true, "<")
    case None => None
    case Some((text, rest)) => Some((if Blank(text) then [] else [Text(text, false)], "<" + rest))
  }

  /** The children up to the next end tag, where the cursor stays. */
  function ReadValue(s: string): (r: Option<(seq<Tree>, string)>)
    ensures r.Some? ==> "</" <= r.value.1 && |r.value.1| <= |s|
    decreases |s|, 3
  {
    ReadValueAt(SkipWhiteSpace(s))
  }

  function ReadValueAt(p: string): (r: Option<(seq<Tree>, string)>)
    requires p == [] || !IsWhiteSpace(p[0])
    ensures r.Some? ==> "</" <= r.value.1 && |r.value.1| <= |p|
    decreases |p|, 2
  {
    hide Prepend, ReadPlainText, IsWhiteSpace;
    if p == [] then None
    else if p[0] != '<' then
      match ReadPlainText(p)
      case None => None
      case Some((texts, rest)) => Prepend(texts, ReadValue(rest))
    else if "</" <= p then Some(([], p))
    else match ParseNode(p)
      case None => None
      case Some((child, rest)) => Prepend([child], ReadValue(rest))
  }

  function Prepend(first: seq<Tree>, r: Option<(seq<Tree>, string)>): (all: Option<(seq<Tree>, string)>)
    ensures all.Some? == r.Some? && (r.Some? ==> all.value.1 == r.value.1)
  {
    match r
    case None => None
    case Some((siblings, q)) => Some((first + siblings, q))
  }
}
