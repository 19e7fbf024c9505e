/**
 Exactly which trees come back unchanged when they are printed and parsed.

 A part of a tree that is not clean either comes back with another value or makes the reader run ahead of the
 printed text.  A reader that is ahead of one part stays ahead of the next, so in the end it has run past the
 printed element.
 */
module XmlExact {
  import opened Wrappers
  import opened XmlText
  import opened XmlTree
  import opened XmlTextRoundTrip
  import opened XmlRoundTrip
  import opened XmlParsed
  import opened XmlLag

  // ---------- unquoted values ----------

  /** What ends an unquoted attribute value. */
  predicate Stop(c: char) {
    IsWhiteSpace(c) || c == '/' || c == '>'
  }

  predicate NoStops(s: string) {
    forall i :: 0 <= i < |s| ==> !Stop(s[i])
  }

  lemma {:induction false} UnquotedStops(s: string)
    ensures NoStops(s[..UnquotedLength(s)])
    ensures UnquotedLength(s) < |s| ==> Stop(s[UnquotedLength(s)])
  {
    if s != [] && !Stop(s[0]) {
      UnquotedStops(s[1..]);
      assert s[..UnquotedLength(s)] == [s[0]] + s[1..][..UnquotedLength(s[1..])];
    }
  }

  lemma CodeHasNoStops(c: char)
    requires !Stop(c)
    ensures NoStops(EncodeChar(c))
  {
  }

  lemma {:induction false} EncodedHasNoStops(v: string, e: string)
    requires NoStops(v) && Encodes(e, v)
    ensures NoStops(e)
  {
    hide Encodes, EncodeChar, Stop;
    if v == [] {
      EncodesNothing(e);
    } else {
      var code, more := EncodesStep(e, v);
      CodeHasNoStops(v[0]);
      assert NoStops([v[0]]);
      EncodedHasNoStops(v[1..], more);
    }
  }

  /** An unquoted value cannot be read up to a quote. */
  lemma {:induction false} InsideFails(inside: string, quote: char, more: string)
    requires NoStops(inside) && inside != [] && (quote == '\'' || quote == '\"')
    requires inside[0] != '\'' && inside[0] != '\"'
    ensures ParseAttrValue(inside + [quote] + more) == None
  {
    var s := inside + [quote] + more;
    UnquotedPasses(inside, [quote] + more);
    assert s == inside + ([quote] + more);
    assert s[..UnquotedLength(s)][|inside|] == quote;
  }

  lemma {:induction false} UnquotedPasses(a: string, b: string)
    requires NoStops(a) && b != [] && !Stop(b[0])
    ensures UnquotedLength(a + b) > |a|
  {
    if a == [] {
      assert a + b == b;
    } else {
      UnquotedPasses(a[1..], b);
      assert (a + b)[1..] == a[1..] + b;
    }
  }

  /** So a reader that reads the value of a printed attribute unquoted is behind its closing quote. */
  lemma UnquotedIsLate(v: string, quote: char, more: string, s: string, rest: string)
    requires quote == '\'' || quote == '\"'
    requires Ends(s, [quote] + Encode(v) + [quote] + more)
    requires s != [] && s[0] != '\'' && s[0] != '\"' && ParseAttrValue(s) == Some((v, rest))
    ensures |s| <= |more|
  {
    hide ReadText, Stop, Encode, ParseAttrValue;
    ValueHasNoStops(s, v, rest);
    EncodedHasNoStops(v, Encode(v));
    if |s| > |more| {
      var inside := InsideQuotes(v, quote, more, s);
      InsideFails(inside, quote, more);
    }
  }

  lemma ValueHasNoStops(s: string, v: string, rest: string)
    requires s != [] && s[0] != '\'' && s[0] != '\"' && ParseAttrValue(s) == Some((v, rest))
    ensures NoStops(v) && Ends(rest, s)
  {
    hide ReadText;
    UnquotedStops(s);
  }

  lemma InsideQuotes(v: string, quote: char, more: string, s: string) returns (inside: string)
    requires quote == '\'' || quote == '\"'
    requires Ends(s, [quote] + Encode(v) + [quote] + more) && |s| > |more| && NoStops(Encode(v))
    requires s[0] != '\'' && s[0] != '\"'
    ensures s == inside + [quote] + more && NoStops(inside) && inside != [] && inside[0] == s[0]
  {
    hide Encode, Stop;
    var x, n := [quote] + Encode(v) + [quote] + more, |s| - |more| - 1;
    inside := s[..n];
    assert s[n..] == [quote] + more;
    assert s[n] == quote;
    forall i | 0 <= i < n
      ensures !Stop(inside[i])
    {
      assert inside[i] == x[|x| - |s| + i] == Encode(v)[|x| - |s| + i - 1];
    }
  }

  // ---------- attributes ----------

  predicate IsQuoteChar(c: char) {
    c == '\'' || c == '\"'
  }

  lemma {:induction false} KeepEnds(s: string, end: string)
    ensures KeepText(s, end).Some? ==> Ends(KeepText(s, end).value.1, s)
    decreases |s|
  {
    hide GetChar;
    if KeepText(s, end).Some? && s != [] && !(end <= s) {
      var rest := GetChar(s).rest;
      KeepEnds(rest, end);
      EndsThrough(KeepText(rest, end).value.1, rest, s);
    }
  }

  lemma ReadIsKept(s: string, end: char, v: string, rest: string)
    requires ReadText(s, false, [end]) == Some((v, rest))
    ensures KeepText(s, [end]) == Some((v, [end] + rest)) && Ends([end] + rest, s)
  {
    hide KeepText;
    KeepEnds(s, [end]);
    var q := KeepText(s, [end]).value.1;
    assert q == [end] + q[1..];
  }

  lemma QuotedValue(s: string, v: string, rest: string)
    requires s != [] && IsQuoteChar(s[0]) && ParseAttrValue(s) == Some((v, rest))
    ensures ReadText(s[1..], false, [s[0]]) == Some((v, rest))
  {
  }

  /** A reader ahead of a quoted value, or in front of a reference in it, has run past the closing quote. */
  lemma QuotedLags(v: string, quote: char, more: string, s: string, rest: string)
    requires Ends(s, [quote] + Encode(v) + [quote] + more)
    requires |s| < |[quote] + Encode(v) + [quote] + more| || !NoHexRef(v)
    requires s != [] && IsQuoteChar(s[0]) && ParseAttrValue(s) == Some((v, rest))
    ensures |rest| < |more| && Passed(rest, s)
  {
    hide Encode, NoHexRef, ReadText, ParseAttrValue, KeepText;
    QuotedValue(s, v, rest);
    ReadIsKept(s[1..], s[0], v, rest);
    assert [quote] + Encode(v) + [quote] + more == [quote] + (Encode(v) + ([quote] + more));
    KeepLags(v, Encode(v), [quote] + more, [s[0]], s[1..], [s[0]] + rest);
    assert s[1..][|s| - |rest| - 2] == s[0];
  }

  /** Behind the '=' of an attribute: the value read, the reader is past the value printed. */
  lemma ValueLags(v: string, quote: char, w: string, y: string, s: string, rest: string, all: string)
    requires IsQuoteChar(quote) && AllWhiteSpace(w) && y != []
    requires Ends("=" + s, all) && Ends([quote] + Encode(v) + [quote] + (w + y), all)
    requires |s| < |[quote] + Encode(v) + [quote] + (w + y)| || (s == [quote] + Encode(v) + [quote] + (w + y) && !NoHexRef(v))
    requires SkipWhiteSpace(s) != [] && ParseAttrValue(SkipWhiteSpace(s)) == Some((v, rest))
    ensures Ends(rest, y) && |rest| < |y|
  {
    hide *;
    var x, value := [quote] + Encode(v) + [quote] + (w + y), SkipWhiteSpace(s);
    SkippedEnds(s);
    EndsJoin("=", s);
    EndsThrough(s, "=" + s, all);
    EndsAmong(s, x, all);
    EndsThrough(value, s, x);
    EndsThrough(x, x, all);
    EndsJoin([quote] + Encode(v) + [quote], w + y);
    EndsThrough(w + y, x, all);
    if IsQuoteChar(value[0]) {
      QuotedLags(v, quote, w + y, value, rest);
      EndsThrough(value, x, all);
      PassedBlanks(rest, value, w, y, all);
    } else {
      UnquotedLags(v, quote, w, y, s, rest, all);
    }
  }

  lemma SkippedEnds(s: string)
    ensures Ends(SkipWhiteSpace(s), s)
  {
  }

  lemma UnquotedLags(v: string, quote: char, w: string, y: string, s: string, rest: string, all: string)
    requires IsQuoteChar(quote) && AllWhiteSpace(w) && y != []
    requires Ends("=" + s, all) && Ends([quote] + Encode(v) + [quote] + (w + y), all)
    requires Ends(s, [quote] + Encode(v) + [quote] + (w + y))
    requires SkipWhiteSpace(s) != [] && !IsQuoteChar(SkipWhiteSpace(s)[0])
    ensures ParseAttrValue(SkipWhiteSpace(s)) == Some((v, rest)) ==> Ends(rest, y) && |rest| < |y|
  {
    hide Encode, ParseAttrValue, AllWhiteSpace, SkipWhiteSpace;
    if ParseAttrValue(SkipWhiteSpace(s)) != Some((v, rest)) {
      return;
    }
    var x, value := [quote] + Encode(v) + [quote] + (w + y), SkipWhiteSpace(s);
    SkippedEnds(s);
    EndsThrough(value, s, x);
    UnquotedIsLate(v, quote, w + y, value, rest);
    ValueHasNoStops(value, v, rest);
    NotOverQuote(s, quote, [quote] + Encode(v), w + y);
    EqualsIsNoQuote(s, quote, [quote] + Encode(v), w + y, all);
    PassedEquals(s);
    EndsJoin([quote] + Encode(v) + [quote], w + y);
    EndsThrough(w + y, x, all);
    PassedBlanks(s, "=" + s, w, y, all);
    EndsThrough(rest, value, s);
    EndsThrough(rest, s, y);
  }

  /** White space is not skipped over a quote. */
  lemma NotOverQuote(s: string, quote: char, before: string, more: string)
    requires IsQuoteChar(quote) && Ends(s, before + [quote] + more) && |SkipWhiteSpace(s)| <= |more|
    ensures |s| <= |more|
  {
    hide SkipWhiteSpace, Ends;
    SkippedIsWhite(s);
    if |s| > |more| {
      QuoteAt(s, quote, before, more);
    }
  }

  lemma QuoteAt(s: string, quote: char, before: string, more: string)
    requires Ends(s, before + [quote] + more) && |s| > |more|
    ensures s[|s| - |more| - 1] == quote
  {
    assert s[|s| - |more| - 1] == (before + [quote] + more)[|before|];
  }

  lemma EqualsIsNoQuote(s: string, quote: char, before: string, more: string, all: string)
    requires IsQuoteChar(quote) && Ends("=" + s, all) && Ends(before + [quote] + more, all) && |s| <= |more|
    ensures |s| < |more|
  {
    assert ("=" + s)[0] == all[|all| - |s| - 1];
    assert (before + [quote] + more)[|before|] == all[|all| - |more| - 1];
  }

  lemma PassedEquals(s: string)
    ensures Passed(s, "=" + s)
  {
  }

  lemma AttrParts(p: string, a: Attr, rest: string) returns (s: string)
    requires p != [] && !IsWhiteSpace(p[0]) && ParseAttr(p) == Some((a, rest))
    ensures Ends("=" + s, p) && |s| + |a.name| + 1 <= |p|
    ensures SkipWhiteSpace(s) != [] && ParseAttrValue(SkipWhiteSpace(s)) == Some((a.value, rest))
  {
    hide *;
    AttrSteps(p, a, rest);
    NameEnds(p);
    var afterName := ReadName(p).value.1;
    var equals := SkipWhiteSpace(afterName);
    SkippedEnds(afterName);
    EndsThrough(equals, afterName, p);
    EndsShort(equals, afterName);
    s := equals[1..];
    Behead(equals, "=");
  }

  lemma Behead(s: string, head: string)
    requires s != [] && head == [s[0]]
    ensures head + s[1..] == s
  {
  }

  lemma AttrSteps(p: string, a: Attr, rest: string)
    requires p != [] && !IsWhiteSpace(p[0])
    ensures ParseAttr(p) == Some((a, rest)) ==> ReadName(p).Some? && ReadName(p).value.0 == a.name
    ensures ParseAttr(p) == Some((a, rest)) ==>
      (var equals := SkipWhiteSpace(ReadName(p).value.1);
            equals != [] && equals[0] == '=' && SkipWhiteSpace(equals[1..]) != [] &&
            ParseAttrValue(SkipWhiteSpace(equals[1..])) == Some((a.value, rest)))
  {
    hide ReadName, ParseAttrValue, SkipWhiteSpace;
    if ParseAttr(p) != Some((a, rest)) {
      return;
    }
    NoSkip(p);
  }

  lemma NameEnds(p: string)
    requires ReadName(p).Some?
    ensures Ends(ReadName(p).value.1, p) && |ReadName(p).value.0| + |ReadName(p).value.1| == |p|
    ensures Passed(ReadName(p).value.1, p)
  {
  }

  lemma PrintedAttr(a: Attr, more: string) returns (quote: char)
    requires ValidName(a.name)
    ensures IsQuoteChar(quote)
    ensures PrintAttr(a) + more == a.name + "=" + ([quote] + Encode(a.value) + [quote] + more)
  {
    hide Encode, ValidName;
    quote := if '\"' in CStr(a.value) then '\'' else '\"';
    NamesAreEncoded(a.name);
    assert PrintAttr(a) == a.name + "=" + [quote] + Encode(a.value) + [quote];
  }

  lemma NamesAreEncoded(name: string)
    requires ValidName(name)
    ensures Encode(name) == name
  {
    NameIsEncoded(name);
  }

  /** A reader ahead of a printed attribute, or in front of a reference in it, is ahead of what follows it. */
  lemma AttrLags(a: Attr, w: string, y: string, p: string, rest: string)
    requires ValidName(a.name) && AllWhiteSpace(w) && y != [] && p != [] && !IsWhiteSpace(p[0])
    requires Ends(p, PrintAttr(a) + (w + y)) && (|p| < |PrintAttr(a) + (w + y)| || !NoHexRef(a.value))
    ensures ParseAttr(p) == Some((a, rest)) ==> Ends(rest, y) && |rest| < |y|
  {
    hide *;
    if ParseAttr(p) != Some((a, rest)) {
      return;
    }
    var all := PrintAttr(a) + (w + y);
    var quote := PrintedAttr(a, w + y);
    var x := [quote] + Encode(a.value) + [quote] + (w + y);
    var s := AttrParts(p, a, rest);
    EndsThrough("=" + s, p, all);
    EndsJoin(a.name + "=", x);
    EndsJoin("=", s);
    EndsThrough(s, "=" + s, all);
    EndsShort(p, all);
    EndsAmong(s, x, all);
    if |s| >= |x| {
      SameEnds(s, x);
    }
    ValueLags(a.value, quote, w, y, s, rest, all);
  }

  lemma EndsShort(s: string, x: string)
    requires Ends(s, x)
    ensures |s| <= |x|
  {
  }

  // ---------- the attributes of an element ----------

  predicate HexFrom(attrs: seq<Attr>, i: nat) {
    exists k :: i <= k < |attrs| && !NoHexRef(attrs[k].value)
  }

  /** The end of an element with content: the reader of the children stops at the end tag. */
  lemma ContentMeans(s: string, name: string, attrs: seq<Attr>, t: Tree, q: string) returns (end: string)
    requires ParseContent(s, name, attrs) == Some((t, q))
    ensures t == Element(name, attrs, t.children) && ReadValue(s) == Some((t.children, end))
    ensures |q| + |name| + 3 <= |end| && Passed(q, end)
  {
    hide ReadValue, SkipWhiteSpace;
    end := ReadValue(s).value.1;
    var after := end[|"</" + name|..];
    SkippedEnds(after);
    EndsThrough(q, SkipWhiteSpace(after), after);
    EndsThrough(SkipWhiteSpace(after), after, end);
  }

  lemma TagCases(p: string, name: string, attrs: seq<Attr>, t: Tree, q: string)
    requires ParseTagAt(p, name, attrs) == Some((t, q))
    ensures p != []
    ensures p[0] == '/' ==> t == Element(name, attrs, []) && |p| >= 2 && p[1] == '>' && q == p[2..]
    ensures p[0] == '>' ==> ParseContent(p[1..], name, attrs) == Some((t, q))
    ensures p[0] != '/' && p[0] != '>' ==>
      ParseAttr(p).Some? && ParseAttr(p).value.1 != [] && |ParseAttr(p).value.1| < |p| &&
      ParseTag(ParseAttr(p).value.1, name, attrs + [ParseAttr(p).value.0]) == Some((t, q))
  {
    hide ParseAttr, ParseContent, ParseTag, HasName;
  }

  /** The parser keeps the name and the attributes it has read so far. */
  lemma {:induction false} TagKeeps(s: string, name: string, attrs: seq<Attr>, t: Tree, q: string)
    ensures ParseTag(s, name, attrs) == Some((t, q)) ==> t.Element? && t.name == name && attrs <= t.attrs
    decreases |s|
  {
    hide *;
    if ParseTag(s, name, attrs) != Some((t, q)) {
      return;
    }
    var p := SkipWhiteSpace(s);
    SkippedEnds(s);
    EndsShort(p, s);
    TagSkips(s, name, attrs);
    TagCases(p, name, attrs, t, q);
    if p[0] == '>' {
      var end := ContentMeans(p[1..], name, attrs, t, q);
    } else if p[0] != '/' {
      var (attr, rest) := ParseAttr(p).value;
      TagKeeps(rest, name, attrs + [attr], t, q);
    }
  }

  /** The next step of a reader that has still attributes to read. */
  lemma TagReads(p: string, name: string, attrs: seq<Attr>, i: nat, t: Tree, q: string) returns (rest: string)
    requires i < |attrs| && t.Element? && t.attrs == attrs && ParseTagAt(p, name, attrs[..i]) == Some((t, q))
    ensures p != [] && ParseAttr(p) == Some((attrs[i], rest)) && rest != []
    ensures ParseTag(rest, name, attrs[..i + 1]) == Some((t, q))
  {
    hide *;
    TagCases(p, name, attrs[..i], t, q);
    if p[0] == '>' {
      var end := ContentMeans(p[1..], name, attrs[..i], t, q);
    }
    assert p[0] != '/' && p[0] != '>';
    var (attr, r) := ParseAttr(p).value;
    TagKeeps(r, name, attrs[..i] + [attr], t, q);
    assert (attrs[..i] + [attr])[i] == attrs[i];
    assert attrs[..i] + [attr] == attrs[..i + 1];
    rest := r;
  }

  lemma PrintedAttrs(attrs: seq<Attr>, i: nat, close: string)
    requires i < |attrs| && forall k :: 0 <= k < |attrs| ==> ValidName(attrs[k].name)
    ensures SkipWhiteSpace(PrintAttrs(attrs[i..]) + close) == PrintAttr(attrs[i]) + (PrintAttrs(attrs[i + 1..]) + close)
  {
    hide PrintAttr, SkipWhiteSpace, ValidName;
    var a, more := attrs[i], PrintAttrs(attrs[i + 1..]) + close;
    assert attrs[i..][1..] == attrs[i + 1..];
    if i + 1 < |attrs| {
      ValidIsNamed(attrs[i + 1].name);
    }
    assert PrintAttrs(attrs[i..]) + close == " " + (PrintAttr(a) + more);
    PrintedAttrHead(a, more);
    SkipTo(" ", PrintAttr(a) + more);
  }

  lemma ValidIsNamed(name: string)
    requires ValidName(name)
    ensures name != ""
  {
  }

  lemma PrintedAttrHead(a: Attr, more: string)
    requires ValidName(a.name)
    ensures PrintAttr(a) + more != [] && !IsWhiteSpace((PrintAttr(a) + more)[0])
  {
    hide Encode;
    NamesAreEncoded(a.name);
    assert (PrintAttr(a) + more)[0] == a.name[0];
  }

  /**
   A reader of the attributes comes to what closes the tag: ahead of it, if it was ahead or if there is a
   reference in an attribute still to be read, and in step otherwise.
   */
  lemma {:induction false} AttrsLag(attrs: seq<Attr>, i: nat, name: string, close: string, p: string, t: Tree, q: string)
    returns (s: string)
    requires i <= |attrs| && UniqueNames(attrs) && forall k :: 0 <= k < |attrs| ==> ValidName(attrs[k].name)
    requires close != [] && SkipWhiteSpace(close) != []
    requires Ends(p, SkipWhiteSpace(PrintAttrs(attrs[i..]) + close)) && SkipWhiteSpace(p) == p
    requires t.Element? && t.attrs == attrs && ParseTagAt(p, name, attrs[..i]) == Some((t, q))
    ensures Ends(s, p) && Ends(s, SkipWhiteSpace(close)) && ParseTagAt(s, name, attrs) == Some((t, q))
    ensures |p| < |SkipWhiteSpace(PrintAttrs(attrs[i..]) + close)| || HexFrom(attrs, i) ==>
              |s| < |SkipWhiteSpace(close)|
    decreases |attrs| - i
  {
    hide *;
    if i == |attrs| {
      AllAttrs(attrs, close);
      EndsSelf(p);
      return p;
    }
    var a, more := attrs[i], PrintAttrs(attrs[i + 1..]) + close;
    var y := SkipWhiteSpace(more);
    PrintedAttrs(attrs, i, close);
    var rest := TagReads(p, name, attrs, i, t, q);
    MoreToRead(attrs, i + 1, close);
    var p' := AttrStep(a, more, p, rest);
    TagSkips(rest, name, attrs[..i + 1]);
    s := AttrsLag(attrs, i + 1, name, close, p', t, q);
    EndsThrough(s, p', p);
    if HexFrom(attrs, i) {
      HexLater(attrs, i);
    }
  }

  lemma MoreToRead(attrs: seq<Attr>, i: nat, close: string)
    requires i <= |attrs| && SkipWhiteSpace(close) != [] && forall k :: 0 <= k < |attrs| ==> ValidName(attrs[k].name)
    ensures SkipWhiteSpace(PrintAttrs(attrs[i..]) + close) != []
  {
    hide SkipWhiteSpace, PrintAttr, ValidName;
    if i < |attrs| {
      PrintedAttrs(attrs, i, close);
      PrintedAttrHead(attrs[i], PrintAttrs(attrs[i + 1..]) + close);
    } else {
      assert PrintAttrs(attrs[i..]) + close == close;
    }
  }

  lemma AttrStep(a: Attr, more: string, p: string, rest: string) returns (p': string)
    requires ValidName(a.name) && SkipWhiteSpace(more) != [] && rest != []
    requires Ends(p, PrintAttr(a) + more) && p != [] && SkipWhiteSpace(p) == p && ParseAttr(p) == Some((a, rest))
    ensures p' == SkipWhiteSpace(rest) && Ends(p', p) && Ends(p', SkipWhiteSpace(more))
    ensures |p| < |PrintAttr(a) + more| || !NoHexRef(a.value) ==> |p'| < |SkipWhiteSpace(more)|
  {
    hide *;
    var y := SkipWhiteSpace(more);
    var w := more[..|more| - |y|];
    SkippedIsWhite(more);
    SkippedEnds(more);
    Parted(more, y);
    SkippedEnds(rest);
    AttrShortens(p);
    EndsJoin(PrintAttr(a), more);
    EndsShort(p, PrintAttr(a) + more);
    if |p| < |PrintAttr(a) + more| || !NoHexRef(a.value) {
      AttrLags(a, w, y, p, rest);
      EndsThrough(rest, y, more);
    } else {
      SameEnds(p, PrintAttr(a) + more);
      CleanAttr(a);
      NotBlankMore(more);
      AttrRoundTrip(a, more);
      EndsSelf(y);
      EndsSelf(more);
    }
    p' := SkipWhiteSpace(rest);
    EndsThrough(rest, more, PrintAttr(a) + more);
    EndsAmong(rest, p, PrintAttr(a) + more);
    EndsThrough(p', rest, p);
    EndsShort(p', rest);
    if |p| < |PrintAttr(a) + more| || !NoHexRef(a.value) {
      EndsThrough(p', rest, y);
    }
  }

  lemma Parted(x: string, y: string)
    requires Ends(y, x)
    ensures x[..|x| - |y|] + y == x
  {
  }

  lemma AttrShortens(p: string)
    requires ParseAttr(p).Some?
    ensures |ParseAttr(p).value.1| <= |p| && (p != [] && SkipWhiteSpace(p) == p ==> !IsWhiteSpace(p[0]))
  {
    hide ParseAttr;
  }

  lemma CleanAttr(a: Attr)
    requires ValidName(a.name) && NoHexRef(a.value)
    ensures PrintableAttr(a)
  {
  }

  lemma NotBlankMore(s: string)
    requires SkipWhiteSpace(s) != []
    ensures s != []
  {
  }

  lemma EndsSelf(s: string)
    ensures Ends(s, s)
  {
  }

  lemma AllAttrs(attrs: seq<Attr>, close: string)
    ensures PrintAttrs(attrs[|attrs|..]) + close == close && attrs[..|attrs|] == attrs
    ensures !HexFrom(attrs, |attrs|)
  {
  }

  lemma HexLater(attrs: seq<Attr>, i: nat)
    requires i < |attrs| && HexFrom(attrs, i)
    ensures !NoHexRef(attrs[i].value) || HexFrom(attrs, i + 1)
  {
    hide NoHexRef;
  }

  lemma TagSkips(s: string, name: string, attrs: seq<Attr>)
    ensures ParseTag(s, name, attrs) == ParseTagAt(SkipWhiteSpace(s), name, attrs)
    ensures SkipWhiteSpace(SkipWhiteSpace(s)) == SkipWhiteSpace(s)
  {
    hide ParseTagAt;
    if SkipWhiteSpace(s) != [] {
      NoSkip(SkipWhiteSpace(s));
    }
  }

  // ---------- comments, CDATA sections and unknown tags ----------

  lemma {:induction false} CStrShortens(s: string)
    ensures |CStr(s)| <= |s| && ('\0' in s ==> |CStr(s)| < |s|)
  {
    if s != [] && s[0] != '\0' {
      CStrShortens(s[1..]);
    }
  }

  /** The parser that a node of each kind comes from. */
  lemma NodeKinds(p: string, c: Tree, q: string)
    requires p != [] && p[0] == '<' && ParseNode(p) == Some((c, q))
    ensures c.Comment? ==> "<!--" <= p && ParseComment(p) == Some((c, q))
    ensures c.Text? ==> c.cdata && "<![CDATA[" <= p && ParseCData(p) == Some((c, q))
    ensures c.Unknown? ==> ParseUnknown(p) == Some((c, q))
    ensures c.Element? ==> ParseElement(p) == Some((c, q))
  {
    hide ParseElement, IndexOf, Find, ReadText, StartsWithIgnoreCase;
  }

  /** The bytes of these nodes are taken as they are, so a reader needs at least as many as were printed. */
  lemma LeafLags(c: Tree, depth: nat, style: Style, more: string, p: string, q: string)
    requires !c.Element? && !IsPlainText(c) && more != []
    requires p != [] && p[0] == '<'
    requires Ends(p, PrintCore(c, depth, style) + more) && (|p| < |PrintCore(c, depth, style) + more| || !Clean(c))
    ensures ParseNode(p) == Some((c, q)) ==> |q| < |more| && Passed(q, p)
  {
    hide CStr, ParseNode, ParseComment, ParseCData, ParseUnknown, Passed;
    if ParseNode(p) != Some((c, q)) {
      return;
    }
    NodeKinds(p, c, q);
    match c {
      case Comment(v) =>
        CStrShortens(v);
        CommentPassed(p);
      case Text(v, _) =>
        CStrShortens(v);
        CDataPassed(p);
      case Unknown(v) =>
        CStrShortens(v);
        UnknownPassed(p);
    }
  }

  lemma CommentPassed(p: string)
    requires "<!--" <= p
    ensures var (c, q) := ParseComment(p).value;
            Passed(q, p) && (q == [] || |q| + 7 + |c.comment| == |p|)
  {
    hide Find;
    var n := Find(p[4..], "-->");
    assert n < |p[4..]| ==> p[n + 6] == '>';
  }

  lemma CDataPassed(p: string)
    requires "<![CDATA[" <= p
    ensures match ParseCData(p)
            case None => true
            case Some((c, q)) => Passed(q, p) && |q| + 12 + |c.text| == |p|
  {
    hide Find, GetChar;
    var n := Find(p[9..], "]]>");
    assert p[9..][n..] == p[9 + n..];
    assert n < |p[9..]| ==> p[n + 11] == '>';
  }

  lemma UnknownPassed(p: string)
    requires p != [] && p[0] == '<'
    ensures var (c, q) := ParseUnknown(p).value;
            Passed(q, p) && (q == [] || |q| + 2 + |c.tag| == |p|)
  {
    hide IndexOf;
    var n := IndexOf(p[1..], '>');
    assert n < |p[1..]| ==> p[n + 1] == '>';
  }

  // ---------- plain texts ----------

  lemma {:induction false} CondenseEnds(s: string, pending: bool)
    ensures CondenseText(s, "<", pending).Some? ==> Ends(CondenseText(s, "<", pending).value.1, s)
    decreases |s|
  {
    hide GetChar;
    if CondenseText(s, "<", pending).Some? && s != [] && s[0] != '<' {
      var rest := if IsWhiteSpace(s[0]) then s[1..] else GetChar(s).rest;
      CondenseEnds(rest, IsWhiteSpace(s[0]));
      EndsThrough(CondenseText(rest, "<", IsWhiteSpace(s[0])).value.1, rest, s);
    }
  }

  /** What a plain text or a blank before the cursor is read as. */
  lemma PlainMeans(p: string, texts: seq<Tree>, q: string)
    requires p != [] && !IsWhiteSpace(p[0]) && p[0] != '<' && ReadPlainText(p) == Some((texts, q))
    ensures Ends(q, p) && |q| < |p| && "<" <= q
    ensures texts != [] ==> texts == [Text(texts[0].text, false)] && texts[0].Text?
    ensures texts != [] ==> CondenseText(p, "<", false) == Some((texts[0].text, q)) && !Blank(texts[0].text)
  {
    hide CondenseText, Blank;
    NoSkip(p);
    CondenseEnds(p, false);
    var rest := CondenseText(p, "<", false).value.1;
    assert "<" + rest[1..] == rest;
  }

  /** A reader ahead of a printed text, or in step with one that is not clean, is ahead of the next tag. */
  lemma TextChildLags(v: string, more: string, p: string, q: string)
    requires !Blank(v) && |SkipWhiteSpace(more)| >= 2 && SkipWhiteSpace(more)[0] == '<'
    requires Ends(p, SkipWhiteSpace(Encode(v) + more)) && p != [] && p[0] != '<' && !IsWhiteSpace(p[0])
    ensures ReadPlainText(p) == Some(([Text(v, false)], q)) ==> Ends(q, p) && Ends(q, SkipWhiteSpace(more)) && SkipWhiteSpace(q) == q
    ensures ReadPlainText(p) == Some(([Text(v, false)], q)) ==>
      (|p| < |SkipWhiteSpace(Encode(v) + more)| || !(NoHexRef(v) && NoStrayBlanks(v)) ==>
              |q| < |SkipWhiteSpace(more)|)
  {
    hide *;
    if ReadPlainText(p) != Some(([Text(v, false)], q)) {
      return;
    }
    var x, y := Encode(v) + more, SkipWhiteSpace(more);
    var w := more[..|more| - |y|];
    SkippedIsWhite(more);
    SkippedEnds(more);
    Parted(more, y);
    SkippedEnds(x);
    EndsShort(p, SkipWhiteSpace(x));
    EndsShort(SkipWhiteSpace(x), x);
    EndsThrough(p, SkipWhiteSpace(x), x);
    PlainMeans(p, [Text(v, false)], q);
    AtTag(q);
    if |p| < |x| || !NoHexRef(v) {
      TextIsLate(v, w, y, p, q);
      EndsThrough(q, p, x);
      EndsJoin(Encode(v), more);
      EndsThrough(y, more, x);
      EndsAmong(q, y, x);
    } else {
      SameEnds(p, x);
      SameEnds(SkipWhiteSpace(x), x);
      TextInStep(v, w, y, q);
      EndsSelf(y);
    }
  }

  lemma AtTag(q: string)
    requires "<" <= q
    ensures SkipWhiteSpace(q) == q
  {
  }

  lemma NotBlankText(v: string)
    requires !Blank(v)
    ensures v != []
  {
  }

  lemma TextIsLate(v: string, w: string, y: string, p: string, q: string)
    requires !Blank(v) && AllWhiteSpace(w) && y != []
    requires Ends(p, Encode(v) + (w + y)) && (|p| < |Encode(v) + (w + y)| || !NoHexRef(v))
    ensures CondenseText(p, "<", false) == Some((v, q)) ==> |q| < |y|
  {
    hide *;
    if CondenseText(p, "<", false) != Some((v, q)) {
      return;
    }
    NotBlankText(v);
    EncodesItself(v);
    AheadMeans(p, v, Encode(v), w + y);
    assert "" + v == v;
    CondenseLags(v, Encode(v), w, y, p, false, q);
  }

  lemma EncodesItself(v: string)
    ensures Encodes(Encode(v), v)
  {
  }

  lemma TextInStep(v: string, w: string, y: string, q: string)
    requires !Blank(v) && NoHexRef(v) && AllWhiteSpace(w) && |y| >= 2 && y[0] == '<'
    requires !IsWhiteSpace((Encode(v) + (w + y))[0]) && (Encode(v) + (w + y))[0] != '<'
    ensures ReadPlainText(Encode(v) + (w + y)) == Some(([Text(v, false)], q)) ==> NoStrayBlanks(v) && q == y
  {
    hide *;
    if ReadPlainText(Encode(v) + (w + y)) != Some(([Text(v, false)], q)) {
      return;
    }
    NotBlankText(v);
    NoBlankFirst(v, w + y);
    PlainTextRead(v, w, y);
    NormalFixed(v);
  }

  lemma NoBlankFirst(v: string, more: string)
    requires v != [] && !IsWhiteSpace((Encode(v) + more)[0])
    ensures v[0] != ' '
  {
    if v[0] == ' ' {
      BlankEncoded();
      EncodeUnfold(v, more);
    }
  }

  // ---------- siblings ----------

  /** What a step of ReadValue that goes on to more children can be. */
  lemma ValueMeans(p: string, c: Tree, siblings: seq<Tree>, q: string) returns (rest: string)
    requires SkipWhiteSpace(p) == p && ReadValueAt(p) == Some(([c] + siblings, q))
    ensures p != [] && !IsWhiteSpace(p[0]) && |rest| < |p|
    ensures p[0] == '<' ==> ParseNode(p) == Some((c, rest)) && !IsPlainText(c) && ReadValue(rest) == Some((siblings, q))
    ensures p[0] != '<' ==>
      (ReadPlainText(p) == Some(([], rest)) && ReadValue(rest) == Some(([c] + siblings, q))) ||
      (ReadPlainText(p) == Some(([c], rest)) && ReadValue(rest) == Some((siblings, q)))
  {
    hide ParseNode, ReadPlainText, ReadValue, SkipWhiteSpace;
    if p[0] == '<' {
      var node;
      node, rest := ParseNode(p).value.0, ParseNode(p).value.1;
      ParsedNode(p);
      SameHead(node, ReadValue(rest).value.0, c, siblings);
    } else {
      var texts;
      texts, rest := ReadPlainText(p).value.0, ReadPlainText(p).value.1;
      PlainMeans(p, texts, rest);
      if texts == [] {
        assert [] + ReadValue(rest).value.0 == ReadValue(rest).value.0;
      } else {
        SameHead(texts[0], ReadValue(rest).value.0, c, siblings);
      }
    }
  }

  lemma SameHead(a: Tree, s: seq<Tree>, b: Tree, t: seq<Tree>)
    requires [a] + s == [b] + t
    ensures a == b && s == t
  {
    assert ([a] + s)[0] == a && ([a] + s)[1..] == s;
    assert ([b] + t)[0] == b && ([b] + t)[1..] == t;
  }

  lemma ValueSkipsBlanks(s: string)
    ensures ReadValue(s) == ReadValueAt(SkipWhiteSpace(s)) && SkipWhiteSpace(SkipWhiteSpace(s)) == SkipWhiteSpace(s)
  {
    hide ReadValueAt;
    if SkipWhiteSpace(s) != [] {
      NoSkip(SkipWhiteSpace(s));
    }
  }

  lemma NodeStart(c: Tree, depth: nat, style: Style)
    requires WellFormed(c) && !IsPlainText(c)
    ensures |PrintCore(c, depth, style)| >= 2 && PrintCore(c, depth, style)[0] == '<'
  {
    hide PrintAttrs, PrintContent;
  }

  lemma CoreSkipsNothing(c: Tree, depth: nat, style: Style, more: string)
    requires WellFormed(c) && !IsPlainText(c)
    ensures SkipWhiteSpace(PrintCore(c, depth, style) + more) == PrintCore(c, depth, style) + more
  {
    hide PrintCore;
    NodeStart(c, depth, style);
    NoSkip(PrintCore(c, depth, style) + more);
  }

  /** The first child read by a reader that is ahead, or is not clean: the reader is then ahead of the rest. */
  lemma {:induction false} SiblingLags(c: Tree, siblings: seq<Tree>, depth: nat, style: Style, more: string, p: string, q: string)
    returns (s: string)
    requires WellFormed(c) && WhiteStyle(style) && SkipWhiteSpace(more) != []
    requires IsPlainText(c) ==> |SkipWhiteSpace(more)| >= 2 && SkipWhiteSpace(more)[0] == '<'
    requires Ends(p, SkipWhiteSpace(PrintCore(c, depth, style) + more)) && SkipWhiteSpace(p) == p
    requires ReadValueAt(p) == Some(([c] + siblings, q))
    ensures Ends(s, p) && Ends(s, SkipWhiteSpace(more)) && SkipWhiteSpace(s) == s
    ensures ReadValueAt(s) == Some((siblings, q))
    ensures |p| < |SkipWhiteSpace(PrintCore(c, depth, style) + more)| || !Clean(c) ==> |s| < |SkipWhiteSpace(more)|
    decreases c, 3, |p|
  {
    hide *;
    var y := SkipWhiteSpace(PrintCore(c, depth, style) + more);
    var rest := ValueMeans(p, c, siblings, q);
    EndsShort(p, y);
    ValueSkipsBlanks(rest);
    if p[0] == '<' {
      s := SkipWhiteSpace(rest);
      CoreSkipsNothing(c, depth, style, more);
      NodeStep(c, depth, style, more, p, rest);
    } else if ReadPlainText(p) == Some(([], rest)) {
      PlainMeans(p, [], rest);
      AtTag(rest);
      EndsThrough(rest, p, y);
      s := SiblingLags(c, siblings, depth, style, more, rest, q);
      EndsThrough(s, rest, p);
    } else {
      PlainMeans(p, [c], rest);
      assert [c][0] == c;
      OnlyPlain(c);
      TextOf(c, depth, style);
      TextChildLags(c.text, more, p, rest);
      s := rest;
    }
  }

  lemma OnlyPlain(c: Tree)
    requires c.Text? && !c.cdata
    ensures IsPlainText(c)
  {
  }

  lemma TextOf(c: Tree, depth: nat, style: Style)
    requires WellFormed(c) && IsPlainText(c)
    ensures c == Text(c.text, false) && PrintCore(c, depth, style) == Encode(c.text) && !Blank(c.text)
    ensures Clean(c) <==> NoHexRef(c.text) && NoStrayBlanks(c.text)
  {
    hide Encode, Blank, NoHexRef, NoStrayBlanks;
  }

  /** The same for a child that is no plain text. */
  lemma {:induction false} NodeStep(c: Tree, depth: nat, style: Style, more: string, p: string, rest: string)
    requires WellFormed(c) && !IsPlainText(c) && WhiteStyle(style) && SkipWhiteSpace(more) != []
    requires Ends(p, PrintCore(c, depth, style) + more) && p != [] && p[0] == '<'
    ensures ParseNode(p) == Some((c, rest)) ==> Ends(SkipWhiteSpace(rest), p) && Ends(SkipWhiteSpace(rest), SkipWhiteSpace(more))
    ensures ParseNode(p) == Some((c, rest)) ==>
      (|p| < |PrintCore(c, depth, style) + more| || !Clean(c) ==> |SkipWhiteSpace(rest)| < |SkipWhiteSpace(more)|)
    decreases c, 2
  {
    hide *;
    if ParseNode(p) != Some((c, rest)) {
      return;
    }
    var x, y := PrintCore(c, depth, style) + more, SkipWhiteSpace(more);
    var w := more[..|more| - |y|];
    SkippedIsWhite(more);
    SkippedEnds(more);
    SkippedEnds(rest);
    Parted(more, y);
    EndsJoin(PrintCore(c, depth, style), more);
    EndsShort(p, x);
    NotBlankMore(more);
    if |p| < |x| || !Clean(c) {
      NodeLags(c, depth, style, more, p, rest);
      PassedEnds(rest, p);
      PassedBlanks(rest, p, w, y, x);
      EndsThrough(SkipWhiteSpace(rest), rest, p);
      EndsThrough(SkipWhiteSpace(rest), rest, y);
      EndsShort(SkipWhiteSpace(rest), rest);
    } else {
      SameEnds(p, x);
      PrintableParts(c);
      BackIsSame(c);
      NodeRoundTrip(c, depth, style, more);
      EndsThrough(y, more, x);
      EndsSelf(y);
    }
  }

  /** A node read by a reader that is ahead, or is not clean: the reader has then run past the printed node. */
  lemma {:induction false} NodeLags(c: Tree, depth: nat, style: Style, more: string, p: string, q: string)
    requires WellFormed(c) && !IsPlainText(c) && WhiteStyle(style) && (more != [] || c.Element?)
    requires Ends(p, PrintCore(c, depth, style) + more) && p != [] && p[0] == '<'
    requires |p| < |PrintCore(c, depth, style) + more| || !Clean(c)
    ensures ParseNode(p) == Some((c, q)) ==> |q| < |more| && Passed(q, p)
    decreases c, 1
  {
    hide *;
    if ParseNode(p) != Some((c, q)) {
    } else if c.Element? {
      ElementLags(c, depth, style, more, p, q);
    } else {
      LeafLags(c, depth, style, more, p, q);
    }
  }

  lemma HasMore(s: string, end: string)
    requires Ends(end, s) && end != [] && !IsWhiteSpace(end[0])
    ensures SkipWhiteSpace(s) != []
  {
    hide SkipWhiteSpace;
    SkippedIsWhite(s);
    assert s[|s| - |end|] == end[0];
  }

  /** What stands in front of the end tag, or of the first sibling that is no plain text. */
  lemma SiblingsStart(children: seq<Tree>, depth: nat, style: Style, w: string, w2: string, end: string)
    requires WellFormedSiblings(children) && WhiteStyle(style)
    requires AllWhiteSpace(w) && AllWhiteSpace(w2) && "</" <= end
    ensures var s := SkipWhiteSpace(w + (PrintSiblings(children, depth, style) + (w2 + end)));
            s != [] && (children == [] || !IsPlainText(children[0]) ==> |s| >= 2 && s[0] == '<')
    ensures children == [] ==> SkipWhiteSpace(w + (PrintSiblings(children, depth, style) + (w2 + end))) == end
    ensures children != [] ==>
      SkipWhiteSpace(w + (PrintSiblings(children, depth, style) + (w2 + end))) ==
      SkipWhiteSpace(PrintCore(children[0], depth, style) +
                     (style.lineBreak + (PrintSiblings(children[1..], depth, style) + (w2 + end))))
  {
    hide PrintCore, SkipWhiteSpace, WellFormed;
    var x := w + (PrintSiblings(children, depth, style) + (w2 + end));
    EndsJoin(w + (PrintSiblings(children, depth, style) + w2), end);
    assert x == w + (PrintSiblings(children, depth, style) + w2) + end;
    HasMore(x, end);
    if children == [] {
      assert x == (w + w2) + end;
      SkipTo(w + w2, end);
    } else {
      var more := style.lineBreak + (PrintSiblings(children[1..], depth, style) + (w2 + end));
      SiblingsText(children, depth, style, w, w2 + end);
      IndentIsWhite(style, depth);
      SkipBlanks(w + Indent(style, depth), PrintCore(children[0], depth, style) + more);
      if !IsPlainText(children[0]) {
        CoreSkipsNothing(children[0], depth, style, more);
        NodeStart(children[0], depth, style);
      }
    }
  }

  predicate AllClean(children: seq<Tree>) {
    forall i :: 0 <= i < |children| ==> Clean(children[i])
  }

  /** Only blank texts are passed over in front of an end tag. */
  lemma {:induction false} NothingRead(p: string, q: string)
    requires SkipWhiteSpace(p) == p && ReadValueAt(p) == Some(([], q))
    ensures Ends(q, p)
    decreases |p|
  {
    hide ParseNode, ReadPlainText, ReadValue, SkipWhiteSpace;
    if p[0] != '<' {
      var (texts, rest) := ReadPlainText(p).value;
      PlainMeans(p, texts, rest);
      AtTag(rest);
      ValueSkipsBlanks(rest);
      NothingRead(rest, q);
      EndsThrough(q, rest, p);
    } else {
      EndsSelf(p);
    }
  }

  /** All children read by a reader that is ahead, or are not clean: the reader is then ahead of the end tag. */
  lemma {:induction false} SiblingsLag(children: seq<Tree>, depth: nat, style: Style, w: string, w2: string, end: string,
                                       p: string, q: string)
    requires WellFormedSiblings(children) && WhiteStyle(style)
    requires AllWhiteSpace(w) && AllWhiteSpace(w2) && "</" <= end
    requires Ends(p, SkipWhiteSpace(w + (PrintSiblings(children, depth, style) + (w2 + end)))) && SkipWhiteSpace(p) == p
    requires |p| < |SkipWhiteSpace(w + (PrintSiblings(children, depth, style) + (w2 + end)))| || !AllClean(children)
    ensures ReadValueAt(p) == Some((children, q)) ==> |q| < |end| && Ends(q, p)
    decreases children, 0
  {
    hide *;
    if ReadValueAt(p) != Some((children, q)) {
      return;
    }
    SiblingsStart(children, depth, style, w, w2, end);
    if children == [] {
      NothingUnclean();
      NothingRead(p, q);
      EndsShort(q, p);
    } else {
      var c, rest := children[0], children[1..];
      var more := style.lineBreak + (PrintSiblings(rest, depth, style) + (w2 + end));
      SiblingsParts(children);
      StyleIsWhite(style);
      SiblingsStart(rest, depth, style, style.lineBreak, w2, end);
      var s := SiblingLags(c, rest, depth, style, more, p, q);
      SiblingsLag(rest, depth, style, style.lineBreak, w2, end, s, q);
      EndsThrough(q, s, p);
    }
  }

  lemma NothingUnclean()
    ensures AllClean([])
  {
  }

  lemma StyleIsWhite(style: Style)
    requires WhiteStyle(style)
    ensures AllWhiteSpace(style.lineBreak)
  {
  }

  lemma SiblingsParts(children: seq<Tree>)
    requires children != [] && WellFormedSiblings(children)
    ensures WellFormed(children[0]) && WellFormedSiblings(children[1..]) && [children[0]] + children[1..] == children
    ensures IsPlainText(children[0]) && children[1..] != [] ==> !IsPlainText(children[1..][0])
    ensures AllClean(children) <==> Clean(children[0]) && AllClean(children[1..])
  {
    hide WellFormed, Clean;
    if AllClean(children[1..]) && Clean(children[0]) {
      assert forall i :: 0 < i < |children| ==> children[i] == children[1..][i - 1];
    }
    if children[1..] != [] {
      assert children[1..][0] == children[1];
    }
  }

  /** The children of an element, up to its end tag. */
  lemma {:induction false} ContentLags(children: seq<Tree>, depth: nat, style: Style, end: string, p: string, q: string)
    requires children != [] && WellFormedSiblings(children) && WhiteStyle(style) && "</" <= end
    requires Ends(p, SkipWhiteSpace(PrintContent(children, depth, style) + end)) && SkipWhiteSpace(p) == p
    requires |p| < |SkipWhiteSpace(PrintContent(children, depth, style) + end)| || !AllClean(children)
    ensures ReadValueAt(p) == Some((children, q)) ==> |q| < |end| && Ends(q, p)
    decreases children, 1
  {
    hide *;
    if ReadValueAt(p) != Some((children, q)) {
      return;
    }
    if IsSimple(children) {
      SimpleContent(children, depth, style);
      SiblingsParts(children);
      NothingUnclean();
      AtTag(end);
      assert [children[0]] + [] == children;
      var s := SiblingLags(children[0], [], depth + 1, style, end, p, q);
      NothingRead(s, q);
      EndsShort(q, s);
      EndsThrough(q, s, p);
    } else {
      ContentText(children, depth, style, end);
      IndentIsWhite(style, depth);
      StyleIsWhite(style);
      SiblingsLag(children, depth + 1, style, style.lineBreak, Indent(style, depth), end, p, q);
    }
  }

  lemma SimpleContent(children: seq<Tree>, depth: nat, style: Style)
    requires IsSimple(children)
    ensures |children| == 1 && children[1..] == []
    ensures PrintContent(children, depth, style) == PrintCore(children[0], depth + 1, style)
  {
    hide PrintCore;
  }

  // ---------- elements ----------

  lemma ElementName(p: string, t: Tree, q: string) returns (rest: string)
    requires p != [] && p[0] == '<' && t.Element? && ParseElement(p) == Some((t, q))
    ensures ParseTag(rest, t.name, []) == Some((t, q)) && rest != []
    ensures |rest| + |t.name| + 1 <= |p| && Passed(rest, p)
  {
    hide ParseTag, ReadName, SkipWhiteSpace;
    NoSkip(p);
    var s := SkipWhiteSpace(p[1..]);
    SkippedEnds(p[1..]);
    NameEnds(s);
    rest := ReadName(s).value.1;
    TagKeeps(rest, ReadName(s).value.0, [], t, q);
    PassedLater(rest, s, p);
  }

  lemma PassedLater(q: string, s: string, p: string)
    requires Passed(q, s) && p != [] && Ends(s, p[1..])
    ensures Passed(q, p)
  {
  }

  lemma PartsOfPrinted(t: Tree, depth: nat, style: Style, more: string) returns (close: string)
    requires WellFormed(t) && t.Element?
    ensures PrintCore(t, depth, style) + more == "<" + (t.name + (PrintAttrs(t.attrs) + close))
    ensures close == if t.children == [] then " />" + more
                     else ">" + (PrintContent(t.children, depth, style) + ("</" + t.name + ">" + more))
  {
    hide PrintAttrs, PrintContent, PrintCore, ValidName, UniqueNames, NoAdjacentTexts;
    NameOnly(t.name);
    if t.children == [] {
      EmptyElementText(t.name, t.attrs, depth, style, more);
      close := " />" + more;
    } else {
      ElementText(t.name, t.attrs, t.children, depth, style, more);
      close := ">" + (PrintContent(t.children, depth, style) + ("</" + t.name + ">" + more));
    }
  }

  lemma PartsOfWellFormed(t: Tree)
    requires WellFormed(t) && t.Element?
    ensures ValidName(t.name) && UniqueNames(t.attrs) && WellFormedSiblings(t.children)
    ensures forall k :: 0 <= k < |t.attrs| ==> ValidName(t.attrs[k].name)
    ensures Clean(t) <==> !HexFrom(t.attrs, 0) && AllClean(t.children)
  {
    hide ValidName, UniqueNames, NoAdjacentTexts, NoHexRef;
  }

  lemma {:induction false} ElementLags(t: Tree, depth: nat, style: Style, more: string, p: string, q: string)
    requires WellFormed(t) && t.Element? && WhiteStyle(style)
    requires Ends(p, PrintCore(t, depth, style) + more) && p != [] && p[0] == '<'
    requires |p| < |PrintCore(t, depth, style) + more| || !Clean(t)
    ensures ParseNode(p) == Some((t, q)) ==> |q| < |more| && Passed(q, p)
    decreases t, 0
  {
    hide *;
    if ParseNode(p) != Some((t, q)) {
      return;
    }
    NodeKinds(p, t, q);
    PartsOfWellFormed(t);
    var all := PrintCore(t, depth, style) + more;
    var close := PartsOfPrinted(t, depth, style, more);
    var rest := ElementName(p, t, q);
    CloseIsThere(close);
    var s := TagLags(t, close, all, p, rest, q);
    CloseLags(t, depth, style, more, close, s, q);
    PassedThrough(q, s, p);
  }

  lemma CloseIsThere(close: string)
    requires close != [] && (close[0] == '>' || (|close| >= 2 && close[1] == '/'))
    ensures SkipWhiteSpace(close) != []
  {
  }

  lemma PassedThrough(q: string, s: string, p: string)
    requires Passed(q, s) && Ends(s, p)
    ensures Passed(q, p)
  {
  }

  /** From behind the name of an element to what closes its tag. */
  lemma TagLags(t: Tree, close: string, all: string, p: string, rest: string, q: string) returns (s: string)
    requires t.Element? && UniqueNames(t.attrs) && forall k :: 0 <= k < |t.attrs| ==> ValidName(t.attrs[k].name)
    requires all == "<" + (t.name + (PrintAttrs(t.attrs) + close)) && close != [] && SkipWhiteSpace(close) != []
    requires Ends(p, all) && |rest| + |t.name| + 1 <= |p| && Passed(rest, p)
    requires ParseTag(rest, t.name, []) == Some((t, q))
    ensures Ends(s, p) && Ends(s, SkipWhiteSpace(close)) && ParseTagAt(s, t.name, t.attrs) == Some((t, q))
    ensures |p| < |all| || HexFrom(t.attrs, 0) ==> |s| < |SkipWhiteSpace(close)|
  {
    hide *;
    var x := PrintAttrs(t.attrs) + close;
    assert t.attrs[0..] == t.attrs && t.attrs[..0] == [];
    assert all == ("<" + t.name) + x;
    EndsJoin("<" + t.name, x);
    MoreToRead(t.attrs, 0, close);
    TagSkips(rest, t.name, []);
    EndsShort(p, all);
    PassedEnds(rest, p);
    SkippedLags(rest, p, x, all);
    s := AttrsLag(t.attrs, 0, t.name, close, SkipWhiteSpace(rest), t, q);
    SkippedEnds(rest);
    EndsThrough(SkipWhiteSpace(rest), rest, p);
    EndsThrough(s, SkipWhiteSpace(rest), p);
  }

  /** White space skipped behind a byte that is not white: who was ahead before is ahead afterwards. */
  lemma SkippedLags(rest: string, p: string, x: string, all: string)
    requires Passed(rest, p) && Ends(p, all) && Ends(x, all) && |rest| <= |x| && SkipWhiteSpace(x) != []
    ensures Ends(SkipWhiteSpace(rest), SkipWhiteSpace(x))
    ensures |rest| < |x| ==> |SkipWhiteSpace(rest)| < |SkipWhiteSpace(x)|
  {
    hide *;
    var y := SkipWhiteSpace(x);
    SkippedEnds(x);
    SkippedEnds(rest);
    SkippedIsWhite(x);
    Parted(x, y);
    PassedEnds(rest, p);
    EndsThrough(rest, p, all);
    if |rest| < |x| {
      PassedBlanks(rest, p, x[..|x| - |y|], y, all);
      EndsThrough(SkipWhiteSpace(rest), rest, y);
      EndsShort(SkipWhiteSpace(rest), rest);
    } else {
      EndsAmong(rest, x, all);
      SameEnds(rest, x);
      EndsSelf(y);
    }
  }

  /** From what closes the start tag to the end of the element. */
  lemma {:induction false} CloseLags(t: Tree, depth: nat, style: Style, more: string, close: string, s: string, q: string)
    requires WellFormed(t) && t.Element? && WhiteStyle(style)
    requires close == if t.children == [] then " />" + more
                      else ">" + (PrintContent(t.children, depth, style) + ("</" + t.name + ">" + more))
    requires Ends(s, SkipWhiteSpace(close))
    requires |s| < |SkipWhiteSpace(close)| || !AllClean(t.children)
    ensures ParseTagAt(s, t.name, t.attrs) == Some((t, q)) ==> |q| < |more| && Passed(q, s)
    decreases t.children, 2
  {
    hide *;
    if ParseTagAt(s, t.name, t.attrs) != Some((t, q)) {
      return;
    }
    TagEnds(s, t, q);
    EndsShort(s, SkipWhiteSpace(close));
    if t.children == [] {
      EmptyClose(more);
      NothingUnclean();
      if s[0] == '>' {
        var end := ContentMeans(s[1..], t.name, t.attrs, t, q);
        ValueSkipsBlanks(s[1..]);
        SkippedEnds(s[1..]);
        NothingRead(SkipWhiteSpace(s[1..]), end);
        EndsThrough(end, SkipWhiteSpace(s[1..]), s[1..]);
        EndsShort(end, s[1..]);
        TailEnds(s);
        EndsThrough(end, s[1..], s);
        PassedThrough(q, end, s);
      } else {
        PassedSlash(s);
      }
    } else {
      var content, end := PrintContent(t.children, depth, style), "</" + t.name + ">" + more;
      BracketStarts(content + end);
      EndTagStarts(t.name, more);
      PartsOfWellFormed(t);
      var e := ContentMeans(s[1..], t.name, t.attrs, t, q);
      ContentStart(s, content, end);
      ValueSkipsBlanks(s[1..]);
      SkippedEnds(s[1..]);
      ContentLags(t.children, depth, style, end, SkipWhiteSpace(s[1..]), e);
      EndsThrough(e, SkipWhiteSpace(s[1..]), s[1..]);
      TailEnds(s);
      EndsThrough(e, s[1..], s);
      PassedThrough(q, e, s);
    }
  }

  /** With all attributes read, the tag closes here. */
  lemma TagEnds(s: string, t: Tree, q: string)
    requires t.Element?
    ensures ParseTagAt(s, t.name, t.attrs) == Some((t, q)) ==> s != [] && (s[0] == '/' || s[0] == '>')
    ensures ParseTagAt(s, t.name, t.attrs) == Some((t, q)) ==>
      (s[0] == '/' ==> t.children == [] && |s| >= 2 && s[1] == '>' && q == s[2..])
    ensures ParseTagAt(s, t.name, t.attrs) == Some((t, q)) ==>
      (s[0] == '>' ==> ParseContent(s[1..], t.name, t.attrs) == Some((t, q)))
  {
    hide *;
    if ParseTagAt(s, t.name, t.attrs) != Some((t, q)) {
      return;
    }
    TagCases(s, t.name, t.attrs, t, q);
    if s[0] != '/' && s[0] != '>' {
      TagKeeps(ParseAttr(s).value.1, t.name, t.attrs + [ParseAttr(s).value.0], t, q);
    }
  }

  lemma BracketStarts(more: string)
    ensures SkipWhiteSpace(">" + more) == ">" + more
  {
  }

  lemma EmptyClose(more: string)
    ensures SkipWhiteSpace(" />" + more) == "/>" + more
  {
    SkipTo(" ", "/>" + more);
    assert " />" + more == " " + ("/>" + more);
  }

  lemma PassedSlash(s: string)
    requires |s| >= 2 && s[1] == '>'
    ensures Passed(s[2..], s)
  {
  }

  lemma EndTagStarts(name: string, more: string)
    ensures "</" <= "</" + name + ">" + more
  {
  }

  lemma ContentStart(s: string, content: string, end: string)
    requires s != [] && s[0] == '>' && Ends(s, ">" + (content + end)) && "</" <= end
    ensures Ends(SkipWhiteSpace(s[1..]), SkipWhiteSpace(content + end))
    ensures |s| < |">" + (content + end)| ==> |SkipWhiteSpace(s[1..])| < |SkipWhiteSpace(content + end)|
  {
    hide SkipWhiteSpace;
    EndsJoin(content, end);
    HasMore(content + end, end);
    EndsJoin(">", content + end);
    SkippedLags(s[1..], s, content + end, ">" + (content + end));
  }

  // ---------- main result ----------

  /**
   Printing a tree and parsing the text gives the tree back, with the cursor at what follows the element,
   exactly when the tree is printable.
   */
  lemma RoundTripExactly(t: Tree, depth: nat, style: Style, rest: string)
    requires t.Element? && WhiteStyle(style)
    ensures ParseElement(PrintNode(t, depth, style) + rest) == Some((t, style.lineBreak + rest)) <==> Printable(t)
  {
    hide *;
    var s, more := PrintNode(t, depth, style) + rest, style.lineBreak + rest;
    PrintableParts(t);
    if Printable(t) {
      RootRoundTrip(t, depth, style, rest);
    } else if ParseElement(s) == Some((t, more)) {
      ParsedElement(s);
      RootStart(t, depth, style, rest);
      EndsSelf(PrintCore(t, depth, style) + more);
      NodeLags(t, depth, style, more, PrintCore(t, depth, style) + more, more);
    }
  }

  /**
   Reading is stable exactly for clean elements: whatever document an element was read from, writing it in
   any white space style and reading it again gives the same element if and only if its texts are clean.
   */
  lemma ReadWriteRead(s: string, style: Style, rest: string)
    requires WhiteStyle(style)
    ensures ParseElement(s).Some? ==>
      var t := ParseElement(s).value.0;
      ParseElement(PrintNode(t, 0, style) + rest) == Some((t, style.lineBreak + rest)) <==> Clean(t)
  {
    hide *;
    if ParseElement(s).Some? {
      var t := ParseElement(s).value.0;
      ParsedElement(s);
      PrintableParts(t);
      RoundTripExactly(t, 0, style, rest);
    }
  }

  lemma RootStart(t: Tree, depth: nat, style: Style, rest: string)
    requires t.Element? && WellFormed(t) && WhiteStyle(style)
    ensures var p := PrintCore(t, depth, style) + (style.lineBreak + rest);
            p != [] && p[0] == '<' && ParseNode(p) == ParseElement(PrintNode(t, depth, style) + rest)
    ensures !IsPlainText(t)
  {
    hide ParseElement, ParseNode, PrintCore, WellFormed, PrintAttrs;
    var p := PrintCore(t, depth, style) + (style.lineBreak + rest);
    NodeStart(t, depth, style);
    IndentIsWhite(style, depth);
    ElementSkips(Indent(style, depth), p);
    assert PrintNode(t, depth, style) + rest == Indent(style, depth) + p;
    PartsOfWellFormed(t);
    var close := PartsOfPrinted(t, depth, style, style.lineBreak + rest);
    NamedIsElement(t.name, PrintAttrs(t.attrs) + close);
  }

  lemma NamedIsElement(name: string, rest: string)
    requires ValidName(name)
    ensures ParseNode("<" + (name + rest)) == ParseElement("<" + (name + rest))
  {
    hide ParseElement, ParseComment, ParseCData, ParseUnknown, StartsWithIgnoreCase;
    var s := "<" + (name + rest);
    assert s[1] == name[0];
    NotDeclaration(s);
  }
}
