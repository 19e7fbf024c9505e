/** The elements that may be written in a document and the trees they mean: the parser accepts exactly these. */
module XmlDerivation {
  import opened Wrappers
  import opened XmlText
  import opened XmlTree
  import opened XmlTextRoundTrip
  import opened XmlRoundTrip
  import opened XmlParsed
  import opened XmlGrammar

  // ---------- the grammar ----------

  datatype AttrSource = AttrSource(before: string, name: string, gap1: string, gap2: string, value: ValueSource)

  /** What stands behind the name of an element up to its end. */
  datatype TagSource =
    | Attribute(a: AttrSource, more: TagSource)
    | Empty(before: string)
    | Full(before: string, content: ContentSource, gap: string)

  datatype ContentSource = End(before: string) | Item(before: string, child: ChildSource, more: ContentSource)

  datatype ChildSource =
    | Nested(name: string, tag: TagSource)
    | Words(ws: WordsSource)
    | Remark(comment: string)
    | Section(text: string)
    | Other(body: string)

  // ---------- the text ----------

  function AttrText(a: AttrSource): string {
    a.name + (a.gap1 + ("=" + (a.gap2 + ValueText(a.value))))
  }

  function TagText(tag: TagSource, name: string): (r: string)
    ensures r != []
  {
    match tag
    case Attribute(a, more) => a.before + (AttrText(a) + TagText(more, name))
    case Empty(before) => before + "/>"
    case Full(before, content, gap) => before + (">" + (ContentText(content) + EndTagText(name, gap)))
  }

  function EndTagText(name: string, gap: string): string {
    "</" + name + (gap + ">")
  }

  function ContentText(content: ContentSource): string {
    match content
    case End(before) => before
    case Item(before, child, more) => before + (ChildText(child) + ContentText(more))
  }

  function ChildText(child: ChildSource): string {
    match child
    case Nested(name, tag) => "<" + (name + TagText(tag, name))
    case Words(ws) => WordsText(ws)
    case Remark(comment) => "<!--" + comment + "-->"
    case Section(text) => "<![CDATA[" + text + "]]>"
    case Other(body) => "<" + body + ">"
  }

  // ---------- the tree ----------

  function TagAttrs(tag: TagSource): seq<Attr> {
    match tag
    case Attribute(a, more) => [Attr(a.name, ValueOut(a.value))] + TagAttrs(more)
    case _ => []
  }

  function TagChildren(tag: TagSource): seq<Tree> {
    match tag
    case Attribute(_, more) => TagChildren(more)
    case Empty(_) => []
    case Full(_, content, _) => ContentTrees(content)
  }

  /** Words that come to nothing but white space are left out. */
  function ContentTrees(content: ContentSource): seq<Tree> {
    match content
    case End(_) => []
    case Item(_, child, more) =>
      if child.Words? && AllWhiteSpace(WordsOut(child.ws)) then ContentTrees(more)
      else [ChildTree(child)] + ContentTrees(more)
  }

  function ChildTree(child: ChildSource): Tree {
    match child
    case Nested(name, tag) => Element(name, TagAttrs(tag), TagChildren(tag))
    case Words(ws) => Text(WordsOut(ws), false)
    case Remark(comment) => Comment(comment)
    case Section(text) => Text(text, true)
    case Other(body) => Unknown(body)
  }

  // ---------- what is allowed ----------

  predicate AttrOk(a: AttrSource, following: string) {
    AllWhiteSpace(a.before) && ValidName(a.name) && AllWhiteSpace(a.gap1) && AllWhiteSpace(a.gap2) &&
    ValueOk(a.value, following)
  }

  predicate TagOk(tag: TagSource, name: string)
    decreases tag, 0
  {
    match tag
    case Attribute(a, more) => AttrOk(a, TagText(more, name)) && TagOk(more, name)
    case Empty(before) => AllWhiteSpace(before)
    case Full(before, content, gap) => AllWhiteSpace(before) && ContentOk(content) && AllWhiteSpace(gap)
  }

  /** Names of attributes are unique, and the name of the element ends where it seems to end. */
  predicate ElementOk(name: string, tag: TagSource)
    decreases tag, 1
  {
    ValidName(name) && !IsNameChar(TagText(tag, name)[0]) && UniqueNames(TagAttrs(tag)) && TagOk(tag, name)
  }

  /** Words go on up to the next tag. */
  predicate ContentOk(content: ContentSource)
    decreases content, 0
  {
    match content
    case End(before) => AllWhiteSpace(before)
    case Item(before, child, more) =>
      AllWhiteSpace(before) && ChildOk(child) && ContentOk(more) &&
      (child.Words? ==> ContentText(more) == [] || ContentText(more)[0] == '<')
  }

  predicate ChildOk(child: ChildSource)
    decreases child, 0
  {
    match child
    case Nested(name, tag) => ElementOk(name, tag)
    case Words(ws) => WordsOk(ws, "<")
    case Remark(comment) => Avoids(comment, "-->")
    case Section(text) => Avoids(text, "]]>")
    case Other(body) => ReadableTag(body)
  }

  // ---------- a text of the grammar is read as its tree ----------

  lemma AttrRead(a: AttrSource, following: string)
    requires AttrOk(a, following) && following != []
    ensures var p := AttrText(a) + following;
            p != [] && IsNameStart(p[0]) && ParseAttr(p) == Some((Attr(a.name, ValueOut(a.value)), following))
  {
    hide ReadName, SkipWhiteSpace, ParseAttrValue, ValueOk, ValueText, ValueOut, AllWhiteSpace, IsNameChar;
    var q := ValueText(a.value) + following;
    ValueRead(a.value, following);
    SkipTo(a.gap2, q);
    var e := "=" + (a.gap2 + q);
    EqualsSign(a.gap1, e);
    NameRoundTrip(a.name, a.gap1 + e);
    var p := AttrText(a) + following;
    AttrPieces(a, following);
    NoSkip(p);
    assert e[1..] == a.gap2 + q;
  }

  lemma AttrPieces(a: AttrSource, following: string)
    requires ValidName(a.name)
    ensures var p := AttrText(a) + following;
            p == a.name + (a.gap1 + ("=" + (a.gap2 + (ValueText(a.value) + following)))) &&
            p != [] && p[0] == a.name[0] && IsNameStart(p[0]) && !IsWhiteSpace(p[0])
  {
    hide ValueText;
    var v := ValueText(a.value);
    Associative(a.gap2, v, following);
    Associative("=", a.gap2 + v, following);
    Associative(a.gap1, "=" + (a.gap2 + v), following);
    Associative(a.name, a.gap1 + ("=" + (a.gap2 + v)), following);
  }

  lemma EqualsSign(gap: string, e: string)
    requires AllWhiteSpace(gap) && e != [] && e[0] == '='
    ensures SkipWhiteSpace(gap + e) == e && !IsNameChar((gap + e)[0])
  {
    SkipTo(gap, e);
    assert (gap + e)[0] == if gap == [] then e[0] else gap[0];
  }

  lemma EndTagRead(name: string, gap: string, t: Tree, x: string)
    requires t.Element? && t.name == name && AllWhiteSpace(gap)
    ensures ParseEndTag(EndTagText(name, gap) + x, t) == Some((t, x))
  {
    var s := EndTagText(name, gap) + x;
    var head := "</" + name;
    assert s == head + (gap + (">" + x));
    assert s[|head|..] == gap + (">" + x);
    SkipTo(gap, ">" + x);
    assert (">" + x)[1..] == x;
  }

  lemma EmptyRead(before: string, name: string, attrs: seq<Attr>, x: string)
    requires AllWhiteSpace(before)
    ensures ParseTag(before + "/>" + x, name, attrs) == Some((Element(name, attrs, []), x))
  {
    hide ParseAttr, ParseContent, SkipWhiteSpace;
    var p := "/>" + x;
    assert before + "/>" + x == before + p && p[0] == '/' && p[1] == '>' && p[2..] == x;
    SkipTo(before, p);
  }

  lemma FullRead(before: string, text: string, name: string, attrs: seq<Attr>, gap: string, x: string, kids: seq<Tree>)
    requires AllWhiteSpace(before) && AllWhiteSpace(gap)
    requires ReadValue(text + (EndTagText(name, gap) + x)) == Some((kids, EndTagText(name, gap) + x))
    ensures ParseTag(before + (">" + (text + EndTagText(name, gap))) + x, name, attrs) ==
            Some((Element(name, attrs, kids), x))
  {
    hide ParseAttr, ReadValue, ParseEndTag, SkipWhiteSpace;
    EndTagRead(name, gap, Element(name, attrs, kids), x);
    hide EndTagText;
    var end := EndTagText(name, gap);
    var p := ">" + (text + (end + x));
    assert before + (">" + (text + end)) + x == before + p && p[0] == '>' && p[1..] == text + (end + x);
    SkipTo(before, p);
    assert ParseTagAt(p, name, attrs) == ParseContent(p[1..], name, attrs);
  }

  lemma {:induction false} TagRead(tag: TagSource, name: string, attrs: seq<Attr>, x: string)
    requires TagOk(tag, name) && UniqueNames(attrs + TagAttrs(tag))
    ensures ParseTag(TagText(tag, name) + x, name, attrs) ==
            Some((Element(name, attrs + TagAttrs(tag), TagChildren(tag)), x))
    decreases tag
  {
    hide ParseTag, EndTagText, ContentText, ContentOk, ContentTrees, AllWhiteSpace, UniqueNames, AttrOk, AttrText;
    match tag
    case Attribute(a, more) =>
      var attr := Attr(a.name, ValueOut(a.value));
      assert attrs + TagAttrs(tag) == attrs + [attr] + TagAttrs(more);
      TagRead(more, name, attrs + [attr], x);
      OneAttr(a, attrs, more, name, x);
    case Empty(before) =>
      assert attrs + [] == attrs;
      EmptyRead(before, name, attrs, x);
    case Full(before, content, gap) =>
      assert attrs + [] == attrs;
      EndTagHead(name, gap, x);
      ContentRead(content, EndTagText(name, gap) + x);
      FullRead(before, ContentText(content), name, attrs, gap, x, ContentTrees(content));
  }

  lemma EndTagHead(name: string, gap: string, x: string)
    ensures "</" <= EndTagText(name, gap) + x
  {
  }

  lemma OneAttr(a: AttrSource, attrs: seq<Attr>, more: TagSource, name: string, x: string)
    requires AttrOk(a, TagText(more, name)) && UniqueNames(attrs + [Attr(a.name, ValueOut(a.value))] + TagAttrs(more))
    ensures ParseTag(a.before + (AttrText(a) + TagText(more, name)) + x, name, attrs) ==
            ParseTag(TagText(more, name) + x, name, attrs + [Attr(a.name, ValueOut(a.value))])
  {
    var attr, t := Attr(a.name, ValueOut(a.value)), TagText(more, name);
    NewName(attrs, attr, TagAttrs(more));
    AttrFar(a, t, x);
    AttrRead(a, t + x);
    hide AttrText, TagText, ParseTag, ParseAttr, SkipWhiteSpace, ValueOut, ValueOk, ValidName;
    var p := AttrText(a) + (t + x);
    Associative(AttrText(a), t, x);
    Associative(a.before, AttrText(a) + t, x);
    NameStartIsNotWhite(p[0]);
    SkipTo(a.before, p);
    TagStep(a.before + p, p, attr, t + x, name, attrs);
  }

  lemma NameStartIsNotWhite(c: char)
    ensures IsNameStart(c) ==> !IsWhiteSpace(c)
  {
  }

  lemma NewName(attrs: seq<Attr>, attr: Attr, others: seq<Attr>)
    requires UniqueNames(attrs + [attr] + others)
    ensures !HasName(attrs, attr.name)
  {
    var all := attrs + [attr] + others;
    assert all[|attrs|] == attr && forall i :: 0 <= i < |attrs| ==> all[i] == attrs[i];
  }

  lemma AttrFar(a: AttrSource, following: string, x: string)
    requires following != []
    ensures AttrOk(a, following) <==> AttrOk(a, following + x)
  {
    assert (following + x)[0] == following[0];
  }

  lemma NestedRead(name: string, tag: TagSource, x: string)
    requires ElementOk(name, tag)
    requires ParseTag(TagText(tag, name) + x, name, []) == Some((Element(name, TagAttrs(tag), TagChildren(tag)), x))
    ensures ParseNode("<" + (name + TagText(tag, name)) + x) == Some((ChildTree(Nested(name, tag)), x))
  {
    hide ParseTag, ParseNode, TagText, IsNameChar, TagOk, ValidName;
    var t := TagText(tag, name);
    assert (t + x)[0] == t[0];
    OpenName(name, t + x);
    assert "<" + (name + t) + x == "<" + (name + (t + x));
  }

  /** A child that is not made of words is read as its tree. */
  lemma {:induction false} ChildRead(child: ChildSource, x: string)
    requires ChildOk(child) && !child.Words? && x != []
    ensures var s := ChildText(child) + x;
            s != [] && s[0] == '<' && ParseNode(s) == Some((ChildTree(child), x))
    decreases child
  {
    hide ParseNode, ParseTag, TagOk, ReadableTag, Avoids, TagText, UniqueNames;
    match child
    case Nested(name, tag) =>
      assert [] + TagAttrs(tag) == TagAttrs(tag);
      TagRead(tag, name, [], x);
      NestedRead(name, tag, x);
    case Remark(comment) => CommentRoundTrip(comment, x);
    case Section(text) => CDataRoundTrip(text, x);
    case Other(body) => OtherRead(body, x);
  }

  lemma OtherRead(body: string, x: string)
    requires ReadableTag(body)
    ensures ParseNode("<" + body + ">" + x) == Some((Unknown(body), x))
  {
    hide *;
    UnknownRoundTrip(body, x);
    NodeIsUnknown("<" + body + ">" + x);
  }

  lemma ChildHead(child: ChildSource)
    requires ChildOk(child) && !child.Words?
    ensures var s := ChildText(child); |s| >= 2 && s[0] == '<' && s[1] != '/'
  {
    hide TagText, TagOk, UniqueNames, Avoids;
  }

  lemma WordsAreText(ws: WordsSource, x: string)
    requires WordsOk(ws, "<") && "<" <= x && |x| > 1
    ensures var p := WordsText(ws) + x; var text := WordsOut(ws);
            p != [] && !IsWhiteSpace(p[0]) && p[0] != '<' &&
            ReadPlainText(p) == Some((if AllWhiteSpace(text) then [] else [Text(text, false)], x))
  {
    hide WordsText, WordsOut, WordsOk, CondenseText, AllWhiteSpace, SkipWhiteSpace, IsWhiteSpace;
    assert "<" + x[1..] == x;
    WordsFar(ws, "<", x[1..]);
    WordsRead(ws, x, false);
    WordsHead(ws, x);
    NoSkip(WordsText(ws) + x);
    assert Pending(false) + WordsOut(ws) == WordsOut(ws);
    hide Blank;
    BlankIsWhite(WordsOut(ws));
  }

  lemma BlankIsWhite(s: string)
    ensures Blank(s) == AllWhiteSpace(s)
  {
  }

  lemma AtEnd(end: string)
    requires "</" <= end
    ensures ReadValue(end) == Some(([], end))
  {
    hide ParseNode, ReadPlainText;
    assert end[0] == '<';
    NoSkip(end);
  }

  lemma TextFirst(p: string, texts: seq<Tree>, x: string, siblings: seq<Tree>, end: string)
    requires p != [] && !IsWhiteSpace(p[0]) && p[0] != '<' && ReadPlainText(p) == Some((texts, x))
    requires ReadValue(x) == Some((siblings, end))
    ensures ReadValue(p) == Some((texts + siblings, end))
  {
    hide ReadPlainText, IsWhiteSpace, SkipWhiteSpace;
    NoSkip(p);
    assert ReadValueAt(p) == Prepend(texts, ReadValue(x));
  }

  lemma {:induction false} ContentRead(content: ContentSource, end: string)
    requires ContentOk(content) && "</" <= end
    ensures ReadValue(ContentText(content) + end) == Some((ContentTrees(content), end))
    decreases content
  {
    hide ReadValue, ReadPlainText, ChildOk, ChildText, ChildTree, WordsText, WordsOut, AllWhiteSpace, IsWhiteSpace;
    match content
    case End(before) =>
      ValueSkips(before, end);
      AtEnd(end);
    case Item(before, child, more) =>
      var x := ContentText(more) + end;
      Associative(ChildText(child), ContentText(more), end);
      Associative(before, ChildText(child) + ContentText(more), end);
      ValueSkips(before, ChildText(child) + x);
      ContentRead(more, end);
      if child.Words? {
        WordsItem(child.ws, more, end);
      } else {
        ChildRead(child, x);
        ChildHead(child);
        NodeSibling(ChildTree(child), ChildText(child), x, ContentTrees(more), end);
      }
  }

  lemma WordsItem(ws: WordsSource, more: ContentSource, end: string)
    requires ChildOk(Words(ws)) && (ContentText(more) == [] || ContentText(more)[0] == '<') && "</" <= end
    requires ReadValue(ContentText(more) + end) == Some((ContentTrees(more), end))
    ensures ReadValue(ChildText(Words(ws)) + (ContentText(more) + end)) ==
            Some((ContentTrees(Item("", Words(ws), more)), end))
  {
    hide ReadValue, ReadPlainText, WordsText, WordsOut, WordsOk, AllWhiteSpace, IsWhiteSpace, ContentText;
    var x := ContentText(more) + end;
    assert "<" <= x && |x| > 1;
    WordsAreText(ws, x);
    var text := WordsOut(ws);
    var texts := if AllWhiteSpace(text) then [] else [Text(text, false)];
    TextFirst(WordsText(ws) + x, texts, x, ContentTrees(more), end);
    assert [] + ContentTrees(more) == ContentTrees(more);
  }

  // ---------- every text that is read is a text of the grammar ----------

  lemma NameParsed(s: string)
    requires ReadName(s).Some?
    ensures var (name, q) := ReadName(s).value;
            s == name + q && ValidName(name) && (q != [] ==> !IsNameChar(q[0]))
  {
  }

  lemma AttrParsed(p: string) returns (a: AttrSource)
    requires p != [] && !IsWhiteSpace(p[0])
    ensures ParseAttr(p).Some? && ParseAttr(p).value.1 != [] ==>
      var (attr, q) := ParseAttr(p).value;
      attr == Attr(a.name, ValueOut(a.value)) && p == AttrText(a) + q && AttrOk(a, q)
  {
    hide *;
    if ParseAttr(p).None? || ParseAttr(p).value.1 == [] {
      return AttrSource("", "", "", "", Bare(""));
    }
    NoSkip(p);
    var name, gap1, e := AttrStart(p);
    var gap2, q := WhiteInFront(e[1..]);
    SkipIs(gap2, q);
    AttrEnd(p, name, gap1, e, q);
    var v := ValueParsed(q);
    a := AttrSource([], name, gap1, gap2, v);
    AttrIsOk(a, ParseAttr(p).value.1);
    AttrJoined(a, ParseAttr(p).value.1);
    AttrRead(a, ParseAttr(p).value.1);
  }

  lemma AttrStart(p: string) returns (name: string, gap1: string, e: string)
    requires p != [] && !IsWhiteSpace(p[0]) && ParseAttr(p).Some?
    ensures p == name + (gap1 + e) && e != [] && e == "=" + e[1..] && ValidName(name) && AllWhiteSpace(gap1)
    ensures ReadName(p) == Some((name, gap1 + e)) && SkipWhiteSpace(gap1 + e) == e
  {
    hide ReadName, SkipWhiteSpace, ParseAttrValue, AllWhiteSpace, IsNameChar, IsWhiteSpace, ValidName;
    NoSkip(p);
    NameParsed(p);
    name := ReadName(p).value.0;
    gap1, e := WhiteInFront(ReadName(p).value.1);
    SkipIs(gap1, e);
  }

  lemma AttrEnd(p: string, name: string, gap1: string, e: string, q: string)
    requires SkipWhiteSpace(p) == p && ReadName(p) == Some((name, gap1 + e)) && SkipWhiteSpace(gap1 + e) == e
    requires e != [] && SkipWhiteSpace(e[1..]) == q
    ensures ParseAttr(p).Some? ==>
      q != [] && ParseAttrValue(q).Some? &&
      ParseAttr(p) == Some((Attr(name, ParseAttrValue(q).value.0), ParseAttrValue(q).value.1))
  {
    hide ReadName, SkipWhiteSpace, ParseAttrValue;
  }

  lemma AttrIsOk(a: AttrSource, following: string)
    requires a.before == [] && ValidName(a.name) && AllWhiteSpace(a.gap1) && AllWhiteSpace(a.gap2)
    requires ValueOk(a.value, following)
    ensures AttrOk(a, following)
  {
  }

  lemma SkipIs(gap: string, tail: string)
    requires AllWhiteSpace(gap) && (tail == [] || !IsWhiteSpace(tail[0]))
    ensures SkipWhiteSpace(gap + tail) == tail
  {
    SkipBlanks(gap, tail);
  }

  lemma AttrJoined(a: AttrSource, x: string)
    ensures a.name + (a.gap1 + ("=" + (a.gap2 + (ValueText(a.value) + x)))) == AttrText(a) + x
  {
    hide ValueText;
    var v := ValueText(a.value);
    Associative(a.gap2, v, x);
    Associative("=", a.gap2 + v, x);
    Associative(a.gap1, "=" + (a.gap2 + v), x);
    Associative(a.name, a.gap1 + ("=" + (a.gap2 + v)), x);
  }

  lemma EndTagParsed(s: string, t: Tree) returns (gap: string)
    requires t.Element? && ParseEndTag(s, t).Some?
    ensures AllWhiteSpace(gap) && s == EndTagText(t.name, gap) + ParseEndTag(s, t).value.1
  {
    hide *;
    EndTagCase(s, t);
    var q;
    gap, q := WhiteInFront(s[|"</" + t.name|..]);
    SkipIs(gap, q);
    EndTagJoined(s, t.name, gap, q);
  }

  lemma EndTagCase(s: string, t: Tree)
    requires t.Element? && ParseEndTag(s, t).Some?
    ensures "</" + t.name <= s
    ensures var q := SkipWhiteSpace(s[|"</" + t.name|..]); q != [] && q[0] == '>' && ParseEndTag(s, t).value.1 == q[1..]
  {
    hide SkipWhiteSpace;
  }

  lemma EndTagJoined(s: string, name: string, gap: string, q: string)
    requires "</" + name <= s && s[|"</" + name|..] == gap + q && q != [] && q[0] == '>'
    ensures s == EndTagText(name, gap) + q[1..]
  {
    var head := "</" + name;
    assert s == head + (gap + q) && q == ">" + q[1..];
    Associative(gap, ">", q[1..]);
    Associative(head, gap + ">", q[1..]);
  }

  lemma TagCases(s: string, before: string, p: string, name: string, attrs: seq<Attr>)
    requires s == before + p && AllWhiteSpace(before) && (p == [] || !IsWhiteSpace(p[0]))
    ensures ParseTag(s, name, attrs).Some? ==>
      p != [] && |p| <= |s| && ParseTag(s, name, attrs) == ParseTagAt(p, name, attrs)
  {
    hide ParseTagAt, SkipWhiteSpace, IsWhiteSpace, AllWhiteSpace;
    SkipIs(before, p);
    NoTagAt(name, attrs);
  }

  lemma NoTagAt(name: string, attrs: seq<Attr>)
    ensures ParseTagAt([], name, attrs).None?
  {
  }

  lemma AttributeCase(p: string, name: string, attrs: seq<Attr>)
    requires p != [] && p[0] != '/' && p[0] != '>'
    ensures ParseTagAt(p, name, attrs).Some? ==>
      ParseAttr(p).Some? && ParseAttr(p).value.1 != [] && |ParseAttr(p).value.1| < |p| &&
      !HasName(attrs, ParseAttr(p).value.0.name) &&
      ParseTagAt(p, name, attrs) == ParseTag(ParseAttr(p).value.1, name, attrs + [ParseAttr(p).value.0])
  {
    hide ParseAttr, ParseTag, ParseContent;
  }

  lemma OneMoreName(attrs: seq<Attr>, attr: Attr)
    requires UniqueNames(attrs) && !HasName(attrs, attr.name)
    ensures UniqueNames(attrs + [attr])
  {
  }

  lemma EmptyParsed(before: string, p: string, name: string, attrs: seq<Attr>) returns (tag: TagSource)
    requires AllWhiteSpace(before) && p != [] && p[0] == '/' && ParseTagAt(p, name, attrs).Some?
    ensures TagOk(tag, name) && TagAttrs(tag) == []
    ensures before + p == TagText(tag, name) + ParseTagAt(p, name, attrs).value.1
  {
    hide AllWhiteSpace;
    tag := Empty(before);
    assert p == "/>" + p[2..];
    Associative(before, "/>", p[2..]);
  }

  lemma AttributeJoined(before: string, a: AttrSource, more: TagSource, name: string, q: string) returns (tag: TagSource)
    requires AllWhiteSpace(before) && TagOk(more, name) && AttrOk(a, TagText(more, name) + q)
    ensures TagOk(tag, name) && TagAttrs(tag) == [Attr(a.name, ValueOut(a.value))] + TagAttrs(more)
    ensures before + (AttrText(a) + (TagText(more, name) + q)) == TagText(tag, name) + q
  {
    hide TagText, ValueOut, ValueOk, AllWhiteSpace, ValidName;
    AttrFar(a, TagText(more, name), q);
    var b := a.(before := before);
    tag := Attribute(b, more);
    AttributeText(b, more, name);
    Associative(AttrText(a), TagText(more, name), q);
    Associative(before, AttrText(a) + TagText(more, name), q);
  }

  lemma AttributeText(a: AttrSource, more: TagSource, name: string)
    ensures TagText(Attribute(a, more), name) == a.before + (AttrText(a) + TagText(more, name))
  {
  }

  /** What the parser reads behind the name of an element. */
  lemma {:induction false} TagParsed(s: string, name: string, attrs: seq<Attr>) returns (tag: TagSource)
    requires ParseTag(s, name, attrs).Some? && UniqueNames(attrs)
    ensures s == TagText(tag, name) + ParseTag(s, name, attrs).value.1 && TagOk(tag, name)
    ensures UniqueNames(attrs + TagAttrs(tag))
    decreases |s|, 5
  {
    hide *;
    var before, p := WhiteInFront(s);
    TagCases(s, before, p, name, attrs);
    if p[0] == '/' {
      tag := EmptyParsed(before, p, name, attrs);
      assert attrs + [] == attrs;
    } else if p[0] == '>' {
      tag := FullParsed(before, p, name, attrs);
      assert attrs + [] == attrs;
    } else {
      AttributeCase(p, name, attrs);
      var a := AttrParsed(p);
      var (attr, rest) := ParseAttr(p).value;
      OneMoreName(attrs, attr);
      var more := TagParsed(rest, name, attrs + [attr]);
      tag := AttributeJoined(before, a, more, name, ParseTag(s, name, attrs).value.1);
      assert attrs + [attr] + TagAttrs(more) == attrs + ([attr] + TagAttrs(more));
    }
  }

  lemma ContentCase(p: string, name: string, attrs: seq<Attr>)
    requires p != [] && p[0] == '>' && ParseTagAt(p, name, attrs).Some?
    ensures ReadValue(p[1..]).Some?
    ensures var (kids, end) := ReadValue(p[1..]).value;
            ParseEndTag(end, Element(name, attrs, kids)).Some? &&
            ParseTagAt(p, name, attrs) == ParseEndTag(end, Element(name, attrs, kids))
  {
    hide ReadValue, ParseEndTag, ParseAttr;
  }

  lemma {:induction false} FullParsed(before: string, p: string, name: string, attrs: seq<Attr>) returns (tag: TagSource)
    requires AllWhiteSpace(before) && p != [] && p[0] == '>' && ParseTagAt(p, name, attrs).Some?
    ensures TagOk(tag, name) && TagAttrs(tag) == []
    ensures before + p == TagText(tag, name) + ParseTagAt(p, name, attrs).value.1
    decreases |p|, 4
  {
    hide *;
    ContentCase(p, name, attrs);
    var content := ContentParsed(p[1..]);
    var (kids, end) := ReadValue(p[1..]).value;
    var gap := EndTagParsed(end, Element(name, attrs, kids));
    tag := Full(before, content, gap);
    FullJoined(before, p, content, gap, name, ParseTagAt(p, name, attrs).value.1);
  }

  lemma FullJoined(before: string, p: string, content: ContentSource, gap: string, name: string, q: string)
    requires AllWhiteSpace(before) && ContentOk(content) && AllWhiteSpace(gap)
    requires p != [] && p[0] == '>' && p[1..] == ContentText(content) + (EndTagText(name, gap) + q)
    ensures var tag := Full(before, content, gap);
            TagOk(tag, name) && TagAttrs(tag) == [] && before + p == TagText(tag, name) + q
  {
    hide AllWhiteSpace, ContentOk, ContentText, EndTagText;
    var text, end := ContentText(content), EndTagText(name, gap);
    assert p == ">" + (text + (end + q));
    Associative(text, end, q);
    Associative(">", text + end, q);
    Associative(before, ">" + (text + end), q);
  }

  lemma ElementStart(s: string) returns (w: string, gap: string, name: string, rest: string)
    requires ParseElement(s).Some?
    ensures AllWhiteSpace(w) && AllWhiteSpace(gap) && ValidName(name) && rest != [] && !IsNameChar(rest[0])
    ensures s == w + ("<" + (gap + (name + rest))) && ParseElement(s) == ParseTag(rest, name, [])
  {
    hide *;
    var p, r;
    w, p := WhiteInFront(s);
    SkipIs(w, p);
    StartCase(s, p);
    gap, r := WhiteInFront(p[1..]);
    SkipIs(gap, r);
    NameParsed(r);
    name, rest := ReadName(r).value.0, ReadName(r).value.1;
  }

  lemma StartCase(s: string, p: string)
    requires p == SkipWhiteSpace(s)
    ensures ParseElement(s).Some? ==>
      p != [] && p[0] == '<' && p == "<" + p[1..] &&
      var r := ReadName(SkipWhiteSpace(p[1..]));
      r.Some? && r.value.1 != [] && ParseElement(s) == ParseTag(r.value.1, r.value.0, [])
  {
    hide SkipWhiteSpace, ReadName, ParseTag;
  }

  /** What the parser reads as an element. */
  lemma {:induction false} ElementParsed(s: string) returns (w: string, gap: string, name: string, tag: TagSource)
    ensures ParseElement(s).Some? ==>
      AllWhiteSpace(w) && AllWhiteSpace(gap) && ElementOk(name, tag) &&
      s == w + ("<" + (gap + (name + (TagText(tag, name) + ParseElement(s).value.1))))
    decreases |s|, 0
  {
    hide *;
    if ParseElement(s).None? {
      return "", "", "", Empty("");
    }
    var rest;
    w, gap, name, rest := ElementStart(s);
    Shorter(s, w, gap, name, rest);
    NoNames();
    tag := TagParsed(rest, name, []);
    assert [] + TagAttrs(tag) == TagAttrs(tag);
    ElementIsOk(name, tag, rest, ParseElement(s).value.1);
  }

  lemma Shorter(s: string, w: string, gap: string, name: string, rest: string)
    requires s == w + ("<" + (gap + (name + rest)))
    ensures |rest| < |s|
  {
  }

  lemma NoNames()
    ensures UniqueNames([])
  {
  }

  lemma ElementIsOk(name: string, tag: TagSource, rest: string, q: string)
    requires ValidName(name) && TagOk(tag, name) && UniqueNames(TagAttrs(tag))
    requires rest == TagText(tag, name) + q && !IsNameChar(rest[0])
    ensures ElementOk(name, tag)
  {
    hide TagOk, TagText, UniqueNames, IsNameChar;
  }

  lemma NestedStart(p: string)
    requires p != [] && p[0] == '<' && Identify(p) == ElementKind
    ensures |p| > 1 && IsNameStart(p[1]) && ParseNode(p) == ParseElement(p)
  {
    hide StartsWithIgnoreCase, ParseElement, IsNameStart;
  }

  lemma NoWhiteInFront(w: string, t: string)
    requires AllWhiteSpace(w) && t != []
    ensures w == [] || IsWhiteSpace((w + t)[0])
  {
    if w != [] { assert (w + t)[0] == w[0]; }
  }

  /** What the parser reads as a child that is not a text. */
  lemma {:induction false} ChildParsed(p: string) returns (child: ChildSource)
    requires p != [] && p[0] == '<' && !("</" <= p)
    ensures ParseNode(p).Some? && ParseNode(p).value.1 != [] ==>
      !child.Words? && ChildOk(child) && p == ChildText(child) + ParseNode(p).value.1
    decreases |p|, 1
  {
    hide *;
    if ParseNode(p).None? || ParseNode(p).value.1 == [] {
      return Remark("");
    }
    if Identify(p) == ElementKind {
      NestedStart(p);
      var w, gap, name, tag := ElementParsed(p);
      var q := ParseNode(p).value.1;
      Nearer(p, w, gap, name, tag, q);
      child := Nested(name, tag);
      NestedIsOk(name, tag, p, q);
    } else {
      child := LeafParsed(p);
    }
  }

  lemma Nearer(p: string, w: string, gap: string, name: string, tag: TagSource, q: string)
    requires AllWhiteSpace(w) && AllWhiteSpace(gap) && ElementOk(name, tag) && |p| > 1 && p[0] == '<' && IsNameStart(p[1])
    requires p == w + ("<" + (gap + (name + (TagText(tag, name) + q))))
    ensures p == "<" + (name + TagText(tag, name)) + q
  {
    hide AllWhiteSpace, TagText, TagOk, UniqueNames;
    var text := TagText(tag, name);
    NoWhiteInFront(w, "<" + (gap + (name + (text + q))));
    assert p[1..] == gap + (name + (text + q));
    NoWhiteInFront(gap, name + (text + q));
  }

  lemma NestedIsOk(name: string, tag: TagSource, p: string, q: string)
    requires ElementOk(name, tag) && p == "<" + (name + TagText(tag, name)) + q
    ensures ChildOk(Nested(name, tag)) && p == ChildText(Nested(name, tag)) + q
  {
    hide ElementOk, TagText;
  }

  lemma LeafParsed(p: string) returns (child: ChildSource)
    requires p != [] && p[0] == '<' && !("</" <= p) && Identify(p) != ElementKind
    requires ParseNode(p).Some? && ParseNode(p).value.1 != []
    ensures !child.Words? && ChildOk(child) && p == ChildText(child) + ParseNode(p).value.1
  {
    hide Avoids, ReadableTag, StartsWithIgnoreCase;
    if Identify(p) == CommentKind {
      child := RemarkParsed(p);
    } else if Identify(p) == TextKind {
      child := SectionParsed(p);
    } else {
      child := OtherParsed(p);
    }
  }

  lemma RemarkParsed(p: string) returns (child: ChildSource)
    requires "<!--" <= p && ParseComment(p).value.1 != []
    ensures !child.Words? && ChildOk(child) && p == ChildText(child) + ParseComment(p).value.1
  {
    hide *;
    var t := p[4..];
    RemarkParts(p);
    FoundAvoids(t, "-->");
    child := Remark(t[..Find(t, "-->")]);
    RemarkMeans(t[..Find(t, "-->")]);
  }

  lemma RemarkParts(p: string)
    requires "<!--" <= p && ParseComment(p).value.1 != []
    ensures var t := p[4..]; p == "<!--" + t[..Find(t, "-->")] + "-->" + ParseComment(p).value.1
  {
    hide Find;
    var t := p[4..];
    var n := Find(t, "-->");
    assert t == t[..n] + t[n..] && t[n..] == "-->" + t[n..][3..];
    assert p == "<!--" + t;
  }

  lemma RemarkMeans(v: string)
    requires Avoids(v, "-->")
    ensures ChildOk(Remark(v)) && ChildText(Remark(v)) == "<!--" + v + "-->"
  {
  }

  lemma SectionParsed(p: string) returns (child: ChildSource)
    requires "<![CDATA[" <= p && ParseCData(p).Some?
    ensures !child.Words? && ChildOk(child) && p == ChildText(child) + ParseCData(p).value.1
  {
    hide *;
    var t := p[9..];
    SectionParts(p);
    FoundAvoids(t, "]]>");
    child := Section(t[..Find(t, "]]>")]);
    SectionMeans(t[..Find(t, "]]>")]);
  }

  lemma SectionParts(p: string)
    requires "<![CDATA[" <= p && ParseCData(p).Some?
    ensures var t := p[9..]; p == "<![CDATA[" + t[..Find(t, "]]>")] + "]]>" + ParseCData(p).value.1
  {
    hide Find, ReadText;
    var t := p[9..];
    var n := Find(t, "]]>");
    var end := t[n..];
    assert p[9 + n..] == end;
    SectionEnd(end);
    Thirds(p, "<![CDATA[", t[..n], "]]>", end[3..]);
  }

  lemma Thirds(p: string, head: string, v: string, mark: string, rest: string)
    requires head <= p && |head| + |v| <= |p| && p[|head|..][..|v|] == v && mark <= p[|head|..][|v|..]
    requires p[|head|..][|v|..][|mark|..] == rest
    ensures p == head + v + mark + rest
  {
    var t := p[|head|..];
    assert p == head + t && t == v + t[|v|..] && t[|v|..] == mark + rest;
  }

  lemma SectionMeans(v: string)
    requires Avoids(v, "]]>")
    ensures ChildOk(Section(v)) && ChildText(Section(v)) == "<![CDATA[" + v + "]]>"
  {
  }

  lemma SectionEnd(s: string)
    requires ReadText(s, false, "]]>").Some? && (s == [] || "]]>" <= s)
    ensures "]]>" <= s && ReadText(s, false, "]]>").value.1 == s[3..]
  {
  }

  lemma OtherParsed(p: string) returns (child: ChildSource)
    requires p != [] && p[0] == '<' && !("</" <= p) && Identify(p) == UnknownKind && ParseUnknown(p).value.1 != []
    ensures !child.Words? && ChildOk(child) && p == ChildText(child) + ParseUnknown(p).value.1
  {
    hide *;
    OtherParts(p);
    var v := p[1..][..IndexOf(p[1..], '>')];
    TagIsWellFormed(p, |v|);
    child := Other(v);
    OtherMeans(v);
  }

  lemma OtherParts(p: string)
    requires p != [] && p[0] == '<' && ParseUnknown(p).value.1 != []
    ensures var v := p[1..][..IndexOf(p[1..], '>')]; p == "<" + v + ">" + ParseUnknown(p).value.1 && '>' !in v
  {
    hide IndexOf;
    var t := p[1..];
    var n := IndexOf(t, '>');
    assert p == "<" + t && t == t[..n] + (">" + t[n + 1..]) && p[n + 2..] == t[n + 1..];
  }

  lemma OtherMeans(v: string)
    requires ReadableTag(v)
    ensures ChildOk(Other(v)) && ChildText(Other(v)) == "<" + v + ">"
  {
  }

  lemma TextParsed(p: string) returns (ws: WordsSource)
    requires p != [] && !IsWhiteSpace(p[0]) && p[0] != '<' && ReadPlainText(p).Some?
    ensures var x := ReadPlainText(p).value.1;
            x != [] && x[0] == '<' && p == WordsText(ws) + x && WordsOk(ws, "<")
  {
    hide CondenseText, SkipWhiteSpace, IsWhiteSpace, WordsOk, WordsText, Blank;
    NoSkip(p);
    ws := WordsParsed(p, false);
    var q := CondenseText(p, "<", false).value.1;
    assert q == "<" + q[1..];
    WordsFar(ws, "<", q[1..]);
  }

  lemma ValueCases(s: string, before: string, p: string)
    requires s == before + p && AllWhiteSpace(before) && (p == [] || !IsWhiteSpace(p[0]))
    ensures ReadValue(s).Some? ==>
      p != [] && |p| <= |s| && ReadValue(s).value.1 != [] &&
      if p[0] != '<' then ReadPlainText(p).Some? && Follows(s, ReadPlainText(p).value.1, p)
      else if "</" <= p then ReadValue(s).value.1 == p
      else ParseNode(p).Some? && Follows(s, ParseNode(p).value.1, p)
  {
    hide SkipWhiteSpace, IsWhiteSpace, AllWhiteSpace, ParseNode, ReadPlainText;
    SkipIs(before, p);
  }

  /** The children from s end where those from x do. */
  predicate Follows(s: string, x: string, p: string) {
    x != [] && |x| < |p| && ReadValue(x).Some? && ReadValue(s).Some? && ReadValue(x).value.1 == ReadValue(s).value.1
  }

  /** What the parser reads as the content of an element. */
  lemma {:induction false} ContentParsed(s: string) returns (content: ContentSource)
    requires ReadValue(s).Some?
    ensures s == ContentText(content) + ReadValue(s).value.1 && ContentOk(content)
    decreases |s|, 3
  {
    hide *;
    var before, p := WhiteInFront(s);
    ValueCases(s, before, p);
    if p[0] != '<' {
      var x := ReadPlainText(p).value.1;
      var ws := TextParsed(p);
      FollowsMeans(s, x, p);
      var more := ContentParsed(x);
      content := Item(before, Words(ws), more);
      WordsJoined(before, ws, more, ReadValue(s).value.1);
    } else if "</" <= p {
      content := End(before);
      EndIsOk(before);
    } else {
      var x := ParseNode(p).value.1;
      FollowsMeans(s, x, p);
      var child := ChildParsed(p);
      var more := ContentParsed(x);
      content := Item(before, child, more);
      ItemJoined(before, child, more, ReadValue(s).value.1);
    }
  }

  lemma FollowsMeans(s: string, x: string, p: string)
    requires Follows(s, x, p)
    ensures x != [] && |x| < |p| && ReadValue(x).Some? && ReadValue(s).Some? && ReadValue(x).value.1 == ReadValue(s).value.1
  {
  }

  lemma EndIsOk(before: string)
    requires AllWhiteSpace(before)
    ensures ContentOk(End(before)) && ContentText(End(before)) == before
  {
  }

  lemma ItemJoined(before: string, child: ChildSource, more: ContentSource, q: string)
    requires AllWhiteSpace(before) && ChildOk(child) && ContentOk(more)
    requires child.Words? ==> ContentText(more) == [] || ContentText(more)[0] == '<'
    ensures ContentOk(Item(before, child, more))
    ensures before + (ChildText(child) + (ContentText(more) + q)) == ContentText(Item(before, child, more)) + q
  {
    hide AllWhiteSpace, ChildOk, ChildText;
    Associative(ChildText(child), ContentText(more), q);
    Associative(before, ChildText(child) + ContentText(more), q);
  }

  lemma WordsJoined(before: string, ws: WordsSource, more: ContentSource, q: string)
    requires AllWhiteSpace(before) && WordsOk(ws, "<") && ContentOk(more)
    requires (ContentText(more) + q) != [] && (ContentText(more) + q)[0] == '<'
    ensures ContentOk(Item(before, Words(ws), more))
    ensures before + (WordsText(ws) + (ContentText(more) + q)) == ContentText(Item(before, Words(ws), more)) + q
  {
    hide AllWhiteSpace, WordsOk, WordsText, ContentText, ContentOk;
    var t := ContentText(more);
    assert t != [] ==> t[0] == (t + q)[0];
    assert ChildOk(Words(ws)) && ChildText(Words(ws)) == WordsText(ws);
    ItemJoined(before, Words(ws), more, q);
  }

  // ---------- main result ----------

  /** The text of an element with white space in front, behind '<', and the rest q behind the element. */
  predicate Derives(s: string, w: string, gap: string, name: string, tag: TagSource, q: string) {
    AllWhiteSpace(w) && AllWhiteSpace(gap) && ElementOk(name, tag) &&
    s == w + ("<" + (gap + (name + (TagText(tag, name) + q))))
  }

  lemma ElementRead(s: string, w: string, gap: string, name: string, tag: TagSource, q: string)
    requires Derives(s, w, gap, name, tag, q)
    ensures ParseElement(s) == Some((Element(name, TagAttrs(tag), TagChildren(tag)), q))
  {
    hide ReadName, SkipWhiteSpace, ParseTag, AllWhiteSpace, TagText, TagOk, TagAttrs, TagChildren, UniqueNames, IsNameChar;
    var t := TagText(tag, name) + q;
    assert t[0] == TagText(tag, name)[0];
    var r := name + t;
    NameRoundTrip(name, t);
    assert r[0] == name[0];
    NameStartIsNotWhite(r[0]);
    SkipTo(gap, r);
    var p := "<" + (gap + r);
    assert p[1..] == gap + r && p[0] == '<';
    SkipTo(w, p);
    assert [] + TagAttrs(tag) == TagAttrs(tag);
    TagRead(tag, name, [], q);
    assert ParseElement(s) == ParseTag(t, name, []);
  }

  /** A parse succeeds exactly on the texts of the grammar, and gives the tree that the text means. */
  lemma ParsedExactly(s: string, t: Tree, q: string)
    ensures ParseElement(s) == Some((t, q)) <==>
            exists w, gap, name, tag ::
              Derives(s, w, gap, name, tag, q) && t == Element(name, TagAttrs(tag), TagChildren(tag))
  {
    hide *;
    if ParseElement(s) == Some((t, q)) {
      var w, gap, name, tag := ElementParsed(s);
      DerivesMeans(s, w, gap, name, tag, q);
      ElementRead(s, w, gap, name, tag, q);
    }
    forall w, gap, name, tag | Derives(s, w, gap, name, tag, q)
      ensures ParseElement(s) == Some((Element(name, TagAttrs(tag), TagChildren(tag)), q))
    {
      ElementRead(s, w, gap, name, tag, q);
    }
  }

  lemma DerivesMeans(s: string, w: string, gap: string, name: string, tag: TagSource, q: string)
    ensures Derives(s, w, gap, name, tag, q) <==>
            AllWhiteSpace(w) && AllWhiteSpace(gap) && ElementOk(name, tag) &&
            s == w + ("<" + (gap + (name + (TagText(tag, name) + q))))
  {
  }
}
