/** What ReadText makes of EncodeString's output. */
module XmlTextRoundTrip {
  import opened Wrappers
  import opened XmlText

  // ---------- one character ----------

  lemma HexDigitReads(n: nat)
    requires n < 16
    ensures HexDigit(n) != ';' && HexDigit(n) != 'x' && DigitValue(HexDigit(n), 16) == Some(n)
  {
  }

  lemma TwoDigits(hi: char, lo: char, rest: string, a: nat, b: nat)
    requires hi != ';' && lo != ';' && hi != 'x' && lo != 'x'
    requires DigitValue(hi, 16) == Some(a) && DigitValue(lo, 16) == Some(b)
    requires a * 16 + b < 256
    ensures GetChar(['&', '#', 'x', hi, lo, ';'] + rest) == Got([(a * 16 + b) as char], rest)
  {
    hide NumericRef, IndexOf;
    var s := ['&', '#', 'x', hi, lo, ';'] + rest;
    assert s[3..] == [hi, lo, ';'] + rest && s[6..] == rest;
    SemicolonThird(hi, lo, rest);
    DigitsRead(s, hi, lo, a, b);
  }

  lemma SemicolonThird(hi: char, lo: char, rest: string)
    requires hi != ';' && lo != ';'
    ensures IndexOf([hi, lo, ';'] + rest, ';') == 2
  {
    assert IndexOf([';'] + rest, ';') == 0;
    assert ([lo, ';'] + rest)[1..] == [';'] + rest;
    assert IndexOf([lo, ';'] + rest, ';') == 1;
    assert ([hi, lo, ';'] + rest)[1..] == [lo, ';'] + rest;
  }

  lemma DigitsRead(s: string, hi: char, lo: char, a: nat, b: nat)
    requires |s| > 4 && s[2] == 'x' && s[3] == hi && s[4] == lo && hi != 'x' && lo != 'x'
    requires DigitValue(hi, 16) == Some(a) && DigitValue(lo, 16) == Some(b) && a * 16 + b < 256
    ensures NumericRef(s, 4, 2, 16, 1, 0) == Some(a * 16 + b)
  {
    hide DigitValue;
    assert NumericRef(s, 2, 2, 16, 256, a * 16 + b) == Some(a * 16 + b);
    assert NumericRef(s, 3, 2, 16, 16, b) == Some(a * 16 + b);
  }

  lemma HexReference(c: char, rest: string)
    requires c as int < 32
    ensures GetChar(EncodeChar(c) + rest) == Got([c], rest)
  {
    var a, b := c as int / 16, c as int % 16;
    HexDigitReads(a);
    HexDigitReads(b);
    TwoDigits(HexDigit(a), HexDigit(b), rest, a, b);
    assert EncodeChar(c) == ['&', '#', 'x', HexDigit(a), HexDigit(b), ';'];
  }

  lemma DecodesBack(c: char, rest: string)
    ensures GetChar(EncodeChar(c) + rest) == Got([c], rest)
  {
    var s := EncodeChar(c) + rest;
    if c as int < 32 {
      HexReference(c, rest);
    } else {
      CodeAndRest(EncodeChar(c), rest);
      if EncodeChar(c)[0] == '&' {
        NamedBack(c, s, rest);
      }
    }
  }

  lemma CodeAndRest(code: string, rest: string)
    requires code != []
    ensures code <= code + rest && (code + rest)[|code|..] == rest && (code + rest)[0] == code[0]
    ensures |code| > 2 ==> (code + rest)[1] == code[1] && (code + rest)[2] == code[2]
  {
  }

  lemma NamedBack(c: char, s: string, rest: string)
    requires c in "&<>\"'" && EncodeChar(c) <= s && s[|EncodeChar(c)|..] == rest
    ensures s[0] == '&' && GetEntity(s) == Got([c], rest)
  {
    hide NumericEntity;
    match c
    case '&' =>
    case '<' => assert s[1] == 'l';
    case '>' => assert s[1] == 'g';
    case '\"' => assert s[1] == 'q';
    case '\'' => assert s[1] == 'a' && s[2] == 'p';
    case _ =>
  }

  /** What EncodeChar writes never starts with an end tag character, nor with white space other than a blank. */
  lemma EncodedHead(c: char)
    ensures EncodeChar(c)[0] != '<' && EncodeChar(c)[0] != '\"' && EncodeChar(c)[0] != '\''
    ensures IsWhiteSpace(EncodeChar(c)[0]) <==> c == ' '
  {
  }

  lemma BlankEncoded()
    ensures EncodeChar(' ') == " "
  {
  }

  lemma EncodeUnfold(v: string, tail: string)
    requires v != [] && !("&#x" <= v)
    ensures Encode(v) + tail == EncodeChar(v[0]) + (Encode(v[1..]) + tail)
  {
  }

  // ---------- white space kept: attribute values ----------

  predicate IsQuote(end: string) {
    end == "'" || end == "\""
  }

  lemma {:induction false} KeepEncoded(v: string, end: string, tail: string)
    requires IsQuote(end) && end <= tail && NoHexRef(v)
    ensures KeepText(Encode(v) + tail, end) == Some((v, tail))
  {
    hide GetChar, EncodeChar;
    if v == [] {
      assert Encode(v) + tail == tail;
    } else {
      EncodeUnfold(v, tail);
      EncodedHead(v[0]);
      DecodesBack(v[0], Encode(v[1..]) + tail);
      KeepEncoded(v[1..], end, tail);
      assert v == [v[0]] + v[1..];
    }
  }

  // ---------- white space condensed: text nodes ----------

  /** A text with each run of blanks cut to one before the next character; final blanks are lost. */
  function Squeeze(v: string, pending: bool): (r: string)
    ensures |r| <= |v| + (if pending && v != [] && v[0] != ' ' then 1 else 0)
  {
    if v == [] then []
    else if v[0] == ' ' then Squeeze(v[1..], true)
    else (if pending then " " else "") + [v[0]] + Squeeze(v[1..], false)
  }

  function TrimLeft(v: string): (r: string)
    ensures |r| <= |v| && (r == v <==> v == [] || v[0] != ' ')
    ensures r != [] ==> r[0] != ' '
  {
    if v == [] || v[0] != ' ' then v else TrimLeft(v[1..])
  }

  /** What a text node keeps of its value when it is printed and read again. */
  function Normal(v: string): string {
    Squeeze(TrimLeft(v), false)
  }

  predicate NoStrayBlanks(v: string) {
    v == [] || (v[0] != ' ' && v[|v| - 1] != ' ' && Avoids(v, "  "))
  }

  lemma {:induction false} SqueezeFixed(v: string)
    ensures Squeeze(v, false) == v <==> v == [] || (v[|v| - 1] != ' ' && Avoids(v, "  "))
    ensures v != [] ==> (Squeeze(v, true) == " " + v <==> v[0] != ' ' && v[|v| - 1] != ' ' && Avoids(v, "  "))
  {
    if v != [] {
      SqueezeFixed(v[1..]);
      assert v == [v[0]] + v[1..];
      if v[0] == ' ' {
        assert Squeeze(v, true) != " " + v;
      } else {
        SqueezeFirst(v);
        hide Squeeze;
        SameBehind([v[0]], Squeeze(v[1..], false), v[1..]);
        SameBehind(" ", Squeeze(v, false), v);
      }
    }
  }

  lemma SqueezeFirst(v: string)
    requires v != [] && v[0] != ' '
    ensures Squeeze(v, false) == [v[0]] + Squeeze(v[1..], false) && Squeeze(v, true) == " " + Squeeze(v, false)
  {
  }

  lemma SameBehind(first: string, a: string, b: string)
    ensures first + a == first + b <==> a == b
  {
    assert (first + a)[|first|..] == a && (first + b)[|first|..] == b;
  }

  lemma NormalFixed(v: string)
    ensures Normal(v) == v <==> NoStrayBlanks(v)
  {
    SqueezeFixed(v);
    SqueezeFixed(TrimLeft(v));
  }

  lemma {:induction false} CondenseBlanks(w: string, tail: string, pending: bool)
    requires AllWhiteSpace(w) && "<" <= tail
    ensures CondenseText(w + tail, "<", pending) == Some(("", tail))
  {
    if w == [] {
      assert w + tail == tail;
    } else {
      assert (w + tail)[1..] == w[1..] + tail;
      CondenseBlanks(w[1..], tail, true);
    }
  }

  lemma CondenseCharacter(code: string, more: string, c: char, pending: bool)
    requires code != [] && code[0] != '<' && !IsWhiteSpace(code[0]) && GetChar(code + more) == Got([c], more)
    requires CondenseText(more, "<", false).Some?
    ensures var r := CondenseText(more, "<", false).value;
            CondenseText(code + more, "<", pending) == Some(((if pending then " " else "") + [c] + r.0, r.1))
  {
    assert (code + more)[0] == code[0];
  }

  lemma CondenseBlank(more: string, pending: bool)
    ensures CondenseText(" " + more, "<", pending) == CondenseText(more, "<", true)
  {
    var s := " " + more;
    assert s[0] == ' ' && s[1..] == more;
  }

  lemma {:induction false} CondenseEncoded(v: string, w: string, tail: string, pending: bool)
    requires NoHexRef(v) && AllWhiteSpace(w) && "<" <= tail
    ensures CondenseText(Encode(v) + (w + tail), "<", pending) == Some((Squeeze(v, pending), tail))
  {
    if v == [] {
      assert Encode(v) + (w + tail) == w + tail;
      CondenseBlanks(w, tail, pending);
    } else {
      var more := Encode(v[1..]) + (w + tail);
      EncodeUnfold(v, w + tail);
      CondenseEncoded(v[1..], w, tail, v[0] == ' ');
      if v[0] == ' ' {
        BlankEncoded();
        CondenseBlank(more, pending);
      } else {
        EncodedHead(v[0]);
        DecodesBack(v[0], more);
        CondenseCharacter(EncodeChar(v[0]), more, v[0], pending);
      }
    }
  }

  lemma {:induction false} SkipBlanks(w: string, tail: string)
    requires AllWhiteSpace(w)
    ensures SkipWhiteSpace(w + tail) == SkipWhiteSpace(tail)
  {
    if w == [] {
      assert w + tail == tail;
    } else {
      assert (w + tail)[1..] == w[1..] + tail;
      SkipBlanks(w[1..], tail);
    }
  }

  lemma {:induction false} SkipEncodedBlanks(v: string, tail: string)
    requires TrimLeft(v) != [] || tail == [] || !IsWhiteSpace(tail[0])
    ensures NoHexRef(TrimLeft(v)) == NoHexRef(v)
    ensures SkipWhiteSpace(Encode(v) + tail) == Encode(TrimLeft(v)) + tail
  {
    if v == [] {
      assert Encode(v) + tail == tail;
    } else if "&#x" <= v {
      SkipNothing(Encode(v), tail);
    } else {
      EncodeUnfold(v, tail);
      EncodedHead(v[0]);
      var more := Encode(v[1..]) + tail;
      if v[0] == ' ' {
        BlankEncoded();
        SkipBlanks(" ", more);
        SkipEncodedBlanks(v[1..], tail);
      } else {
        SkipNothing(EncodeChar(v[0]), more);
      }
    }
  }

  lemma SkipNothing(head: string, tail: string)
    requires head != [] && !IsWhiteSpace(head[0])
    ensures SkipWhiteSpace(head + tail) == head + tail
  {
  }

  // ---------- hexadecimal references do not survive ----------

  lemma {:induction false} IndexOfAppend(a: string, b: string, c: char)
    requires c !in a
    ensures IndexOf(a + b, c) == |a| + IndexOf(b, c)
  {
    if a == [] {
      assert a + b == b;
    } else {
      assert (a + b)[1..] == a[1..] + b;
      IndexOfAppend(a[1..], b, c);
    }
  }

  /** A reference is copied up to its ';' or the last character of the string, at position m. */
  lemma {:induction false} PassedThrough(s: string, m: nat)
    requires 1 <= m < |s| && ';' !in s[1..m] && (s[m] == ';' || m == |s| - 1)
    ensures PassThrough(s) == s[..m] + Encode(s[m..])
    decreases m
  {
    hide Encode;
    assert s[..m] == [s[0]] + s[1..m];
    if m > 1 {
      assert s[1] == s[1..m][0];
      assert s[1..][1..m - 1] == s[1..m][1..] && s[1..][m - 1..] == s[m..];
      PassedThrough(s[1..], m - 1);
      assert s[1..][..m - 1] == s[1..m];
    }
  }

  lemma SemicolonEncoded(s: string)
    requires s != [] && s[0] == ';'
    ensures Encode(s) == ";" + Encode(s[1..])
  {
  }

  lemma SemicolonEndsCode(c: char)
    ensures Encode([c]) == EncodeChar(c) && ';' !in EncodeChar(c)[..|EncodeChar(c)| - 1]
  {
    assert Encode([c][1..]) == [];
    if c as int < 32 {
      HexDigitReads(c as int / 16);
      HexDigitReads(c as int % 16);
    }
  }

  lemma ReferenceAt(s: string, k: nat)
    requires |s| > 3 && "&#x" <= s && k == 3 + IndexOf(s[3..], ';')
    ensures GetChar(s).Got? ==> k < |s| && |GetChar(s).out| == 1 && GetChar(s).rest == s[k + 1..]
  {
    hide NumericRef, IndexOf;
  }

  /** GetChar at a reference whose first ';' comes after the prefix a. */
  lemma ReferenceRest(a: string, b: string)
    requires "&#x" <= a && |a| + |b| > 3 && ';' !in a
    ensures var r := GetChar(a + b);
            r.Got? ==> |r.out| == 1 && |r.rest| < |b| && r.rest == b[|b| - |r.rest|..] && b[|b| - |r.rest| - 1] == ';'
    ensures var r := GetChar(a + b);
            r.Got? && b != [] && b[0] == ';' ==> r.rest == b[1..]
  {
    hide GetChar;
    var s := a + b;
    var k := IndexOf(b, ';');
    assert s[3..] == a[3..] + b;
    IndexOfAppend(a[3..], b, ';');
    ReferenceAt(s, |a| + k);
    if GetChar(s).Got? {
      assert s[|a| + k + 1..] == b[k + 1..];
    }
  }

  /** A reference closed by a ';' of its own decodes to one character, or not at all. */
  lemma ClosedReference(v: string, tail: string)
    requires "&#x" <= v && ';' in v
    ensures Encode(v) != []
    ensures var r := GetChar(Encode(v) + tail);
            r.Got? ==> |r.out| == 1 && r.rest == Encode(v[IndexOf(v, ';') + 1..]) + tail
  {
    hide GetChar;
    var m := IndexOf(v, ';');
    assert v[..m][1..] == v[1..m];
    PassedThrough(v, m);
    SemicolonEncoded(v[m..]);
    assert v[m..][1..] == v[m + 1..];
    ClosedTail(v[..m], Encode(v[m + 1..]), tail);
    assert Encode(v) == v[..m] + (";" + Encode(v[m + 1..]));
  }

  lemma ClosedTail(a: string, more: string, tail: string)
    requires "&#x" <= a && ';' !in a
    ensures var r := GetChar(a + (";" + more) + tail);
            r.Got? ==> |r.out| == 1 && r.rest == more + tail
  {
    var b := ";" + (more + tail);
    assert a + (";" + more) + tail == a + b;
    ReferenceRest(a, b);
    assert b[1..] == more + tail;
  }

  /** An open reference decodes to one character, and swallows all of v or even something after it. */
  lemma OpenReference(v: string, tail: string)
    requires "&#x" <= v && tail != [] && tail[0] != ';' && ';' !in v
    ensures var r := GetChar(Encode(v) + tail);
            r.Got? ==> |r.out| == 1 && (|r.rest| < |tail| || r.rest == tail)
  {
    hide GetChar, PassThrough;
    var n := |v| - 1;
    PassedThrough(v, n);
    var code := EncodeChar(v[n]);
    SemicolonEndsCode(v[n]);
    assert v[n..] == [v[n]];
    assert Encode(v) + tail == v[..n] + (code + tail);
    assert n == 2 ==> v[n] == 'x' && code == "x";
    OpenTail(v, n, code, tail);
  }

  lemma OpenTail(v: string, n: nat, code: string, tail: string)
    requires "&#x" <= v && n == |v| - 1 && ';' !in v && tail != [] && tail[0] != ';'
    requires code != [] && ';' !in code[..|code| - 1] && (n == 2 ==> code == "x")
    ensures var r := GetChar(v[..n] + (code + tail));
            r.Got? ==> |r.out| == 1 && (|r.rest| < |tail| || r.rest == tail)
  {
    var k := |code| - 1;
    var s := v[..n] + (code + tail);
    if n == 2 || code[k] != ';' {
      assert s == v[..n] + code + tail;
      ReferenceRest(v[..n] + code, tail);
    } else {
      var b := [code[k]] + tail;
      assert s == (v[..n] + code[..k]) + b;
      ReferenceRest(v[..n] + code[..k], b);
      assert b[1..] == tail;
    }
  }

  lemma KeepCharacter(s: string, end: string)
    requires s != [] && !(end <= s) && GetChar(s).Got? && KeepText(GetChar(s).rest, end).Some?
    ensures KeepText(s, end) ==
            Some((GetChar(s).out + KeepText(GetChar(s).rest, end).value.0, KeepText(GetChar(s).rest, end).value.1))
  {
  }

  lemma EncodedReferenceHead(v: string)
    requires "&#x" <= v
    ensures Encode(v) != [] && Encode(v)[0] == '&' && !NoHexRef(v)
  {
  }

  /** What reading loses: text shorter than v by at least one if v held a reference, or bytes after the end tag. */
  predicate Loses(r: Option<(string, string)>, v: string, tail: string, atLeast: nat) {
    r.Some? ==> |r.value.1| < |tail| || |r.value.0| + atLeast <= |v|
  }

  lemma {:induction false} KeptLength(v: string, end: string, tail: string)
    requires IsQuote(end) && end <= tail
    ensures Loses(KeepText(Encode(v) + tail, end), v, tail, if NoHexRef(v) then 0 else 1)
    decreases |v|
  {
    if NoHexRef(v) {
      KeepEncoded(v, end, tail);
    } else if !("&#x" <= v) {
      var more := Encode(v[1..]) + tail;
      EncodeUnfold(v, tail);
      EncodedHead(v[0]);
      DecodesBack(v[0], more);
      KeptLength(v[1..], end, tail);
      if KeepText(more, end).Some? { KeepCharacter(EncodeChar(v[0]) + more, end); }
    } else {
      KeptReference(v, end, tail);
    }
  }

  lemma {:induction false} KeptReference(v: string, end: string, tail: string)
    requires IsQuote(end) && end <= tail && "&#x" <= v
    ensures Loses(KeepText(Encode(v) + tail, end), v, tail, 1)
    decreases |v|, 0
  {
    hide GetChar, PassThrough, IndexOf, NoHexRef, Encode;
    var s := Encode(v) + tail;
    EncodedReferenceHead(v);
    assert s != [] && s[0] == '&' && !(end <= s);
    if ';' in v {
      ClosedReference(v, tail);
      KeptLength(v[IndexOf(v, ';') + 1..], end, tail);
    } else {
      OpenReference(v, tail);
    }
    if GetChar(s).Got? && KeepText(GetChar(s).rest, end).Some? { KeepCharacter(s, end); }
  }

  lemma CondenseStep(s: string, pending: bool)
    requires s != [] && !("<" <= s) && !IsWhiteSpace(s[0])
    ensures CondenseText(s, "<", pending) ==
            match GetChar(s)
            case Null => None
            case Got(out, rest) =>
              match CondenseText(rest, "<", false)
              case None => None
              case Some((text, q)) => Some(((if pending then " " else "") + out + text, q))
  {
  }

  lemma {:induction false} CondensedLength(v: string, tail: string, pending: bool)
    requires "<" <= tail
    ensures Loses(CondenseText(Encode(v) + tail, "<", pending), if pending then " " + v else v, tail,
                  if NoHexRef(v) then 0 else 1)
    decreases |v|
  {
    if NoHexRef(v) {
      assert Encode(v) + tail == Encode(v) + ([] + tail);
      CondenseEncoded(v, [], tail, pending);
    } else if !("&#x" <= v) {
      var more := Encode(v[1..]) + tail;
      EncodeUnfold(v, tail);
      CondensedLength(v[1..], tail, v[0] == ' ');
      if v[0] == ' ' {
        BlankEncoded();
        CondenseBlank(more, pending);
      } else {
        EncodedHead(v[0]);
        DecodesBack(v[0], more);
        CondenseStep(EncodeChar(v[0]) + more, pending);
      }
    } else {
      CondensedReference(v, tail, pending);
    }
  }

  lemma CondenseStop(tail: string, pending: bool)
    requires "<" <= tail
    ensures CondenseText(tail, "<", pending) == Some(("", tail))
  {
  }

  lemma {:induction false} CondensedReference(v: string, tail: string, pending: bool)
    requires "<" <= tail && "&#x" <= v
    ensures Loses(CondenseText(Encode(v) + tail, "<", pending), if pending then " " + v else v, tail, 1)
    decreases |v|, 0
  {
    hide GetChar, PassThrough, IndexOf, NoHexRef, CondenseText;
    var s := Encode(v) + tail;
    EncodedReferenceHead(v);
    assert s != [] && s[0] == '&' && !("<" <= s);
    if ';' in v {
      ClosedReference(v, tail);
      CondensedLength(v[IndexOf(v, ';') + 1..], tail, false);
    } else {
      OpenReference(v, tail);
      CondenseStop(tail, false);
    }
    CondenseStep(s, pending);
  }

  // ---------- main results ----------

  /**
   An attribute value printed between quotes is read back byte for byte, with the cursor just past
   the closing quote, exactly when it holds no hexadecimal reference.
   */
  lemma AttributeValueRoundTrip(v: string, end: string, rest: string)
    requires IsQuote(end) && rest != []
    ensures ReadText(Encode(v) + end + rest, false, end) == Some((v, rest)) <==> NoHexRef(v)
  {
    hide KeepText, Encode, NoHexRef;
    var tail := end + rest;
    assert Encode(v) + end + rest == Encode(v) + tail;
    assert tail[|end|..] == rest;
    if NoHexRef(v) {
      KeepEncoded(v, end, tail);
    } else {
      KeptLength(v, end, tail);
    }
  }

  /** A text before white space and the next tag is read back normalised, if it holds no hexadecimal reference. */
  lemma TextReadBack(v: string, w: string, rest: string)
    requires NoHexRef(v) && AllWhiteSpace(w) && rest != [] && (TrimLeft(v) == [] ==> w == [])
    ensures ReadText(Encode(v) + (w + ("<" + rest)), true, "<") == Some((Normal(v), rest))
  {
    hide CondenseText, Encode, NoHexRef, TrimLeft, Squeeze, AllWhiteSpace;
    var tail := "<" + rest;
    assert tail[1..] == rest && !IsWhiteSpace(tail[0]);
    if w == [] {
      assert w + tail == tail;
      SkipEncodedBlanks(v, tail);
    } else {
      SkipEncodedBlanks(v, w + tail);
    }
    CondenseEncoded(TrimLeft(v), w, tail, false);
  }

  lemma ReferenceLost(v: string, rest: string)
    requires rest != [] && !NoHexRef(v)
    ensures ReadText(Encode(v) + ("<" + rest), true, "<") != Some((v, rest))
  {
    hide CondenseText, Encode, NoHexRef, TrimLeft;
    var tail := "<" + rest;
    SkipEncodedBlanks(v, tail);
    var u := TrimLeft(v);
    CondensedLength(u, tail, false);
    var r := CondenseText(Encode(u) + tail, "<", false);
    if r.Some? && r.value.0 == v {
      assert |r.value.1| < |tail|;
    }
  }

  /** A text printed in front of a tag is read back byte for byte exactly when it holds no reference and no stray blank. */
  lemma TextRoundTrip(v: string, rest: string)
    requires rest != []
    ensures ReadText(Encode(v) + ("<" + rest), true, "<") == Some((v, rest)) <==> NoHexRef(v) && NoStrayBlanks(v)
  {
    NormalFixed(v);
    if NoHexRef(v) {
      TextReadBack(v, [], rest);
      assert [] + ("<" + rest) == "<" + rest;
    } else {
      ReferenceLost(v, rest);
    }
  }
}
