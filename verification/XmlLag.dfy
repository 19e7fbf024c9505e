/**
 A reader that has run ahead of the printed text of a value never falls back into step: it reads the
 value only by running past its end.

 The reason is that no byte of an escape but the first is read as the character that is escaped, and none of
 them ends a text.
 */
module XmlLag {
  import opened Wrappers
  import opened XmlText
  import opened XmlTextRoundTrip

  /** s is what is left of x at some point. */
  predicate Ends(s: string, x: string) {
    |s| <= |x| && s == x[|x| - |s|..]
  }

  lemma EndsThrough(a: string, b: string, c: string)
    requires Ends(a, b) && Ends(b, c)
    ensures Ends(a, c)
  {
  }

  lemma EndsAmong(a: string, b: string, x: string)
    requires Ends(a, x) && Ends(b, x) && |a| <= |b|
    ensures Ends(a, b)
  {
  }

  lemma EndsJoin(a: string, b: string)
    ensures Ends(b, a + b)
  {
  }

  // ---------- one character ----------

  /** e is the encoding of v, perhaps from inside a reference that is passed through. */
  predicate Encodes(e: string, v: string) {
    e == Encode(v) || (|v| >= 2 && e == PassThrough(v))
  }

  lemma EncodesStep(e: string, v: string) returns (code: string, more: string)
    requires v != [] && Encodes(e, v)
    ensures e == code + more && Encodes(more, v[1..]) && (code == [v[0]] || code == EncodeChar(v[0]))
    ensures e == Encode(v) && !("&#x" <= v) ==> code == EncodeChar(v[0]) && more == Encode(v[1..])
    ensures e == Encode(v) && "&#x" <= v ==> |code| == 1
    ensures v[0] == ' ' ==> code == " "
  {
    hide EncodeChar;
    BlankEncoded();
    if e == Encode(v) && !("&#x" <= v) {
      code, more := EncodeChar(v[0]), Encode(v[1..]);
    } else {
      code, more := [v[0]], if v[1] == ';' || |v| == 2 then Encode(v[1..]) else PassThrough(v[1..]);
      assert e == PassThrough(v);
    }
  }

  /** No byte of an escape but the first is read as the escaped character, or ends or blanks a text. */
  lemma InnerByte(c: char, k: nat)
    requires 1 <= k < |EncodeChar(c)|
    ensures EncodeChar(c)[k] != c && EncodeChar(c)[k] != '&'
    ensures EncodeChar(c)[k] != '<' && EncodeChar(c)[k] != '\"' && EncodeChar(c)[k] != '\''
    ensures !IsWhiteSpace(EncodeChar(c)[k])
  {
  }

  /** A reader ahead of a character is ahead of what follows it when it has read the character. */
  lemma StepLags(c: char, code: string, more: string, s: string)
    requires code == [c] || code == EncodeChar(c)
    requires Ends(s, code + more) && s != [] && |s| < |code + more|
    requires GetChar(s).Got? && GetChar(s).out == [c]
    ensures |GetChar(s).rest| < |more|
  {
    hide EncodeChar, GetEntity;
    if |s| > |more| {
      var k := |code| - (|s| - |more|);
      assert s[0] == code[k];
      InnerByte(c, k);
    }
  }

  /** Reading a reference takes more than the one byte that was passed through for it. */
  lemma ReferenceSkips(s: string)
    requires "&#x" <= s && GetChar(s).Got?
    ensures |GetChar(s).rest| + 2 <= |s|
  {
    hide NumericRef;
  }

  lemma HexRefLater(v: string)
    requires !NoHexRef(v)
    ensures v != [] && (!("&#x" <= v) ==> !NoHexRef(v[1..]))
  {
  }

  lemma HeadOfEncoded(v: string, tail: string)
    requires "&#x" <= v
    ensures "&#x" <= Encode(v) + tail
  {
    hide Encode;
    var u := v[1..];
    var rest := if |u| == 2 then Encode(u[1..]) else PassThrough(u[1..]);
    assert Encode(v) == PassThrough(v) == [v[0]] + PassThrough(u) by { EncodeOfReference(v); }
    assert PassThrough(u) == [u[0]] + rest;
    XEncoded(u[1..]);
  }

  lemma EncodeOfReference(v: string)
    requires "&#x" <= v
    ensures Encode(v) == PassThrough(v)
  {
  }

  lemma XEncoded(v: string)
    requires v != [] && v[0] == 'x'
    ensures Encode(v) != [] && Encode(v)[0] == 'x'
  {
  }

  // ---------- attribute values ----------

  /** The reader at s is ahead of the printed value, or in step with it in front of a reference. */
  predicate Ahead(s: string, v: string, e: string, tail: string) {
    Ends(s, e + tail) && (|s| < |e + tail| || (e == Encode(v) && !NoHexRef(v)))
  }

  lemma AheadMeans(s: string, v: string, e: string, tail: string)
    ensures Ahead(s, v, e, tail) <==>
            Ends(s, e + tail) && (|s| < |e + tail| || (e == Encode(v) && !NoHexRef(v)))
  {
  }

  lemma KeepStep(s: string, end: string, v: string, q: string)
    requires KeepText(s, end) == Some((v, q)) && v != []
    ensures s != [] && GetChar(s).Got? && |GetChar(s).rest| < |s| && Ends(GetChar(s).rest, s)
    ensures if GetChar(s).out == [] then KeepText(GetChar(s).rest, end) == Some((v, q))
            else GetChar(s).out == [v[0]] && KeepText(GetChar(s).rest, end) == Some((v[1..], q))
  {
    hide GetChar;
    var text := KeepText(GetChar(s).rest, end).value.0;
    assert v == GetChar(s).out + text;
    assert [] + text == text;
  }

  lemma KeepShortens(s: string, end: string, v: string, q: string)
    requires KeepText(s, end) == Some((v, q))
    ensures |q| <= |s|
  {
  }

  /** A reader that is ahead has run past the value when it has read it. */
  lemma {:induction false} KeepLags(v: string, e: string, tail: string, end: string, s: string, q: string)
    requires Encodes(e, v) && Ahead(s, v, e, tail)
    ensures KeepText(s, end) == Some((v, q)) ==> |q| < |tail|
    decreases |s|
  {
    hide *;
    if KeepText(s, end) != Some((v, q)) {
      return;
    }
    if v == [] {
      EncodesNothing(e);
      AheadMeans(s, v, e, tail);
      KeepShortens(s, end, v, q);
    } else {
      KeepStep(s, end, v, q);
      var rest := GetChar(s).rest;
      if GetChar(s).out == [] {
        AheadMore(s, rest, v, e, tail);
        KeepLags(v, e, tail, end, rest, q);
      } else {
        var code, more := EncodesStep(e, v);
        CharacterLags(v, e, code, more, tail, s, rest);
        KeepLags(v[1..], more, tail, end, rest, q);
      }
    }
  }

  lemma EncodesNothing(e: string)
    requires Encodes(e, [])
    ensures e == [] && NoHexRef([])
  {
  }

  /** One character of such a value. */
  lemma CharacterLags(v: string, e: string, code: string, more: string, tail: string, s: string, rest: string)
    requires v != [] && s != [] && Ahead(s, v, e, tail) && e == code + more
    requires code == [v[0]] || code == EncodeChar(v[0])
    requires e == Encode(v) && !("&#x" <= v) ==> code == EncodeChar(v[0]) && more == Encode(v[1..])
    requires e == Encode(v) && "&#x" <= v ==> |code| == 1
    requires GetChar(s) == Got([v[0]], rest)
    ensures Ahead(rest, v[1..], more, tail) && |rest| < |s|
  {
    hide *;
    assert e + tail == code + (more + tail);
    AheadMeans(s, v, e, tail);
    AheadMeans(rest, v[1..], more, tail);
    RestEnds(s);
    EndsThrough(rest, s, e + tail);
    EndsJoin(code, more + tail);
    if |s| < |e + tail| {
      StepLags(v[0], code, more + tail, s);
    } else {
      SameEnds(s, e + tail);
      if "&#x" <= v {
        HeadOfEncoded(v, tail);
        ReferenceSkips(s);
      } else {
        DecodesBack(v[0], more + tail);
        HexRefLater(v);
      }
    }
    EndsAmong(rest, more + tail, e + tail);
  }

  lemma RestEnds(s: string)
    requires s != [] && GetChar(s).Got?
    ensures Ends(GetChar(s).rest, s) && |GetChar(s).rest| < |s|
  {
  }

  lemma SameEnds(s: string, x: string)
    requires Ends(s, x) && |s| >= |x|
    ensures s == x
  {
  }

  // ---------- texts ----------

  /** The byte in front of q, which is left of x, is not white; or nothing is left. */
  predicate Passed(q: string, x: string) {
    Ends(q, x) && (q == [] || (|q| < |x| && !IsWhiteSpace(x[|x| - |q| - 1])))
  }

  lemma ByteInFront(q: string, x: string, w: string, y: string, all: string)
    requires Ends(q, x) && Ends(x, all) && Ends(w + y, all) && |q| < |x| && |y| <= |q| < |w + y|
    ensures x[|x| - |q| - 1] == w[|w + y| - |q| - 1]
  {
    assert all[|all| - |q| - 1] == (w + y)[|w + y| - |q| - 1];
  }

  /** Behind such a byte, a reader that is ahead of white space is ahead of what follows it. */
  lemma PassedBlanks(q: string, x: string, w: string, y: string, all: string)
    requires Passed(q, x) && Ends(x, all) && Ends(w + y, all) && AllWhiteSpace(w) && |q| < |w + y|
    ensures Ends(q, y) && (y != [] ==> |q| < |y|)
  {
    hide IsWhiteSpace, Ends;
    EndsJoin(w, y);
    EndsThrough(y, w + y, all);
    EndsThrough(q, x, all);
    if q != [] && |q| >= |y| {
      ByteInFront(q, x, w, y, all);
    }
    EndsAmong(q, y, all);
  }

  lemma CharacterPassed(s: string)
    requires s != [] && !IsWhiteSpace(s[0]) && GetChar(s).Got?
    ensures Passed(GetChar(s).rest, s)
  {
    if s[0] == '&' {
      EntityPassed(s);
    }
  }

  lemma EntityPassed(s: string)
    requires s != [] && s[0] == '&' && GetEntity(s).Got?
    ensures Passed(GetEntity(s).rest, s)
  {
    hide NumericEntity;
    if |s| > 3 && s[1] == '#' {
      NumberPassed(s, if s[2] == 'x' then 2 else 1, if s[2] == 'x' then 16 else 10);
    }
  }

  lemma NumberPassed(s: string, stopAt: nat, base: nat)
    requires stopAt + 1 < |s| && NumericEntity(s, stopAt, base).Got?
    ensures Passed(NumericEntity(s, stopAt, base).rest, s)
  {
    hide NumericRef;
  }

  lemma {:induction false} PendingBlank(s: string, text: string, q: string)
    requires CondenseText(s, "<", true) == Some((text, q)) && text != []
    ensures text[0] == ' '
  {
    hide GetChar;
    if IsWhiteSpace(s[0]) {
      PendingBlank(s[1..], text, q);
    }
  }

  /** What CondenseText makes of a reader's next step. */
  lemma CondenseUnfold(s: string, pending: bool, text: string, q: string)
    requires CondenseText(s, "<", pending) == Some((text, q)) && text != []
    ensures s != [] && s[0] != '<'
    ensures IsWhiteSpace(s[0]) ==> CondenseText(s[1..], "<", true) == Some((text, q))
    ensures !IsWhiteSpace(s[0]) ==>
      GetChar(s).Got? && CondenseText(GetChar(s).rest, "<", false).Some? &&
      CondenseText(GetChar(s).rest, "<", false).value.1 == q && |q| <= |GetChar(s).rest| &&
      text == (if pending then " " else "") + GetChar(s).out + CondenseText(GetChar(s).rest, "<", false).value.0
  {
    hide GetChar;
  }

  lemma AheadMore(s: string, t: string, v: string, e: string, tail: string)
    requires Ahead(s, v, e, tail) && Ends(t, s) && |t| < |s|
    ensures Ahead(t, v, e, tail)
  {
    hide Encode, NoHexRef;
    EndsThrough(t, s, e + tail);
  }

  lemma BlankLags(v: string, e: string, more: string, tail: string, s: string)
    requires v != [] && v[0] == ' ' && e == " " + more && s != [] && Ahead(s, v, e, tail)
    requires e == Encode(v) ==> more == Encode(v[1..])
    ensures Ahead(s[1..], v[1..], more, tail)
  {
    hide Encode, NoHexRef;
    assert e + tail == " " + (more + tail);
    EndsThrough(s[1..], s, e + tail);
    EndsJoin(" ", more + tail);
    EndsAmong(s[1..], more + tail, e + tail);
    if !NoHexRef(v) {
      HexRefLater(v);
    }
  }

  /** A reader that is ahead has run past the white space behind a text when it has read the text. */
  lemma {:induction false} CondenseLags(v: string, e: string, w: string, y: string, s: string, pending: bool, q: string)
    requires Encodes(e, v) && Ahead(s, v, e, w + y) && AllWhiteSpace(w) && y != []
    requires pending || v != []
    ensures CondenseText(s, "<", pending) == Some(((if pending then " " else "") + v, q)) ==> |q| < |y|
    decreases |s|
  {
    hide *;
    if CondenseText(s, "<", pending) != Some(((if pending then " " else "") + v, q)) {
      return;
    }
    CondenseUnfold(s, pending, (if pending then " " else "") + v, q);
    if IsWhiteSpace(s[0]) {
      TailEnds(s);
      if pending {
        AheadMore(s, s[1..], v, e, w + y);
        CondenseLags(v, e, w, y, s[1..], true, q);
      } else {
        assert "" + v == v;
        PendingBlank(s[1..], v, q);
        var code, more := EncodesStep(e, v);
        BlankLags(v, e, more, w + y, s);
        assert v == " " + v[1..];
        CondenseLags(v[1..], more, w, y, s[1..], true, q);
      }
    } else {
      var u, more := NextLags(v, e, w + y, s, pending, q);
      var rest := GetChar(s).rest;
      if u == [] {
        AheadEnds(s, v, e, w + y);
        LastLags(s, rest, e, more, w, y);
      } else {
        assert "" + u == u;
        CondenseLags(u, more, w, y, rest, false, q);
      }
    }
  }

  lemma AheadEnds(s: string, v: string, e: string, tail: string)
    requires Ahead(s, v, e, tail)
    ensures Ends(s, e + tail)
  {
  }

  lemma TailEnds(s: string)
    requires s != []
    ensures Ends(s[1..], s)
  {
  }

  /** One step of such a reader at a byte that is not white: u is what it has still to read. */
  lemma NextLags(v: string, e: string, tail: string, s: string, pending: bool, q: string) returns (u: string, more: string)
    requires Encodes(e, v) && Ahead(s, v, e, tail) && s != [] && s[0] != '<' && !IsWhiteSpace(s[0])
    requires pending || v != []
    requires CondenseText(s, "<", pending) == Some(((if pending then " " else "") + v, q))
    ensures GetChar(s).Got? && |GetChar(s).rest| < |s| && |q| <= |GetChar(s).rest| && Passed(GetChar(s).rest, s)
    ensures Encodes(more, u) && Ahead(GetChar(s).rest, u, more, tail) && Ends(more, e)
    ensures CondenseText(GetChar(s).rest, "<", false) == Some((u, q))
  {
    hide *;
    CondenseUnfold(s, pending, (if pending then " " else "") + v, q);
    CharacterPassed(s);
    var out, rest := GetChar(s).out, GetChar(s).rest;
    var text := CondenseText(rest, "<", false).value.0;
    SameText(if pending then " " else "", v, out, text);
    if out == [] {
      PassedEnds(rest, s);
      EndsJoin([], e);
      assert [] + e == e;
      AheadMore(s, rest, v, e, tail);
      assert [] + text == text;
      return v, e;
    } else {
      var code;
      code, more := EncodesStep(e, v);
      EndsJoin(code, more);
      CharacterLags(v, e, code, more, tail, s, rest);
      return v[1..], more;
    }
  }

  lemma SameText(blank: string, v: string, out: string, text: string)
    requires blank + v == blank + out + text && |out| <= 1
    ensures v == out + text && (out != [] ==> v != [] && out == [v[0]] && text == v[1..])
  {
    assert v == (blank + v)[|blank|..];
    assert out + text == (blank + out + text)[|blank|..];
  }

  lemma PassedEnds(q: string, x: string)
    requires Passed(q, x)
    ensures Ends(q, x)
  {
  }

  /** Behind its last character the reader is ahead of the white space, so it is ahead of what follows. */
  lemma LastLags(s: string, rest: string, e: string, more: string, w: string, y: string)
    requires Ends(s, e + (w + y)) && Ends(more, e) && Encodes(more, []) && Ahead(rest, [], more, w + y)
    requires Passed(rest, s) && AllWhiteSpace(w) && y != []
    ensures |rest| < |y|
  {
    hide Encode, NoHexRef, Encodes, AllWhiteSpace, Passed;
    EncodesNothing(more);
    assert more + (w + y) == w + y;
    EndsJoin(e, w + y);
    PassedBlanks(rest, s, w, y, e + (w + y));
  }
}
