/**
 The character loops of TinyXML's parser and printer, each against the function that specifies it.
 A cursor variable holds what is left of the buffer, so "++p" is p := p[1..].
 */
module XmlScanner {
  import opened Wrappers
  import opened XmlText
  import opened XmlTree
  import opened XmlAttributes

  method SkipSpace(s: string) returns (p: string)
    ensures p == SkipWhiteSpace(s)
  {
    p := s;
    while p != [] && IsWhiteSpace(p[0])
      invariant SkipWhiteSpace(p) == SkipWhiteSpace(s)
      decreases |p|
    {
      p := p[1..];
    }
  }

  method ScanName(s: string) returns (r: Option<(string, string)>)
    ensures r == ReadName(s)
  {
    if s != [] && IsNameStart(s[0]) {
      var p := s;
      while p != [] && IsNameChar(p[0])
        invariant |p| <= |s| && p == s[|s| - |p|..] && |s| - |p| + NameLength(p) == NameLength(s)
        decreases |p|
      {
        p := p[1..];
      }
      var n := |s| - |p|;
      return Some((s[..n], p));
    }
    return None;
  }

  method ScanNumber(s: string, stopAt: nat, base: nat) returns (r: CharRead)
    requires stopAt + 1 < |s|
    ensures r == NumericEntity(s, stopAt, base)
  {
    var k := stopAt + 1 + IndexOf(s[stopAt + 1..], ';');
    if k == |s| {
      return Null;
    }
    var q, mult, ucs := k - 1, 1, 0;
    while s[q] != s[stopAt]
      invariant stopAt <= q < |s| && 0 <= mult && 0 <= ucs
      invariant NumericRef(s, k - 1, stopAt, base, 1, 0) == NumericRef(s, q, stopAt, base, mult, ucs)
      decreases q
    {
      var digit := DigitValue(s[q], base);
      if digit == None {
        return Null;
      }
      ucs := ucs + mult * digit.value % UNSIGNED_RANGE;
      mult := mult * base % UNSIGNED_RANGE;
      q := q - 1;
    }
    return Got([(ucs % 256) as char], s[k + 1..]);
  }

  method ScanEntity(s: string) returns (r: CharRead)
    requires |s| > 0 && s[0] == '&'
    ensures r == GetEntity(s)
  {
    if |s| > 2 && s[1] == '#' {
      if s[2] == 'x' {
        if |s| == 3 {
          return Null;
        }
        r := ScanNumber(s, 2, 16);
      } else {
        r := ScanNumber(s, 1, 10);
      }
      return;
    }
    var entities := [("&amp;", "&"), ("&lt;", "<"), ("&gt;", ">"), ("&quot;", "\""), ("&apos;", "'")];
    var i := 0;
    while i < 5
      invariant 0 <= i <= 5
      invariant forall j :: 0 <= j < i ==> !(entities[j].0 <= s)
    {
      if entities[i].0 <= s {
        return Got(entities[i].1, s[|entities[i].0|..]);
      }
      i := i + 1;
    }
    assert !(entities[0].0 <= s) && !(entities[1].0 <= s) && !(entities[2].0 <= s);
    assert !(entities[3].0 <= s) && !(entities[4].0 <= s);
    return Got("", s[1..]);
  }

  method ScanChar(s: string) returns (r: CharRead)
    requires s != []
    ensures r == GetChar(s)
  {
    if s[0] == '&' {
      r := ScanEntity(s);
      return;
    }
    return Got([s[0]], s[1..]);
  }

  /** The rest of a text loop, put behind what it has read so far. */
  function Behind(text: string, r: Option<(string, string)>): Option<(string, string)> {
    match r
    case None => None
    case Some((more, q)) => Some((text + more, q))
  }

  lemma BehindNothing(r: Option<(string, string)>)
    ensures Behind("", r) == r
  {
    if r.Some? {
      assert "" + r.value.0 == r.value.0;
    }
  }

  lemma BehindBoth(a: string, b: string, r: Option<(string, string)>)
    ensures Behind(a, Behind(b, r)) == Behind(a + b, r)
  {
    if r.Some? {
      assert a + (b + r.value.0) == (a + b) + r.value.0;
    }
  }

  lemma KeepUnfold(p: string, end: string)
    ensures KeepText(p, end) ==
            if p == [] || end <= p then Some(("", p))
            else if GetChar(p).Null? then None
            else Behind(GetChar(p).out, KeepText(GetChar(p).rest, end))
  {
  }

  lemma CondenseUnfold(p: string, end: string, pending: bool)
    ensures CondenseText(p, end, pending) ==
            if p == [] || end <= p then Some(("", p))
            else if IsWhiteSpace(p[0]) then CondenseText(p[1..], end, true)
            else if GetChar(p).Null? then None
            else Behind((if pending then " " else "") + GetChar(p).out, CondenseText(GetChar(p).rest, end, false))
  {
  }

  method ScanText(s: string, trim: bool, end: string) returns (r: Option<(string, string)>)
    ensures r == ReadText(s, trim, end)
  {
    hide KeepText, CondenseText, GetChar, Behind, SkipWhiteSpace;
    var text, p := "", s;
    if !trim {
      BehindNothing(KeepText(s, end));
      while p != [] && !(end <= p)
        invariant KeepText(s, end) == Behind(text, KeepText(p, end))
        decreases |p|
      {
        KeepUnfold(p, end);
        var c := ScanChar(p);
        if c.Null? {
          BehindNull(text);
          return None;
        }
        BehindBoth(text, c.out, KeepText(c.rest, end));
        text, p := text + c.out, c.rest;
      }
      KeepUnfold(p, end);
    } else {
      p := SkipSpace(s);
      var pending, start := false, p;
      BehindNothing(CondenseText(start, end, false));
      while p != [] && !(end <= p)
        invariant CondenseText(start, end, false) == Behind(text, CondenseText(p, end, pending))
        decreases |p|
      {
        CondenseUnfold(p, end, pending);
        if IsWhiteSpace(p[0]) {
          pending := true;
          p := p[1..];
        } else {
          var gap := if pending then " " else "";
          pending := false;
          var c := ScanChar(p);
          if c.Null? {
            BehindNull(text);
            return None;
          }
          BehindBoth(text, gap + c.out, CondenseText(c.rest, end, false));
          text, p := text + (gap + c.out), c.rest;
        }
      }
      CondenseUnfold(p, end, pending);
    }
    BehindEnd(text, p);
    if p != [] {
      p := p[|end|..];
    }
    return if p != [] then Some((text, p)) else None;
  }

  lemma BehindNull(text: string)
    ensures Behind(text, None) == None
  {
  }

  lemma BehindEnd(text: string, p: string)
    ensures Behind(text, Some(("", p))) == Some((text, p))
  {
    assert text + "" == text;
  }

  /** TiXmlAttribute::Parse; None is the null cursor. */
  method ScanAttribute(attrib: Attribute, s: string) returns (r: Option<string>)
    modifies attrib`name, attrib`value
    ensures match ParseAttr(s)
            case None => r == None
            case Some((a, rest)) => r == Some(rest) && attrib.name == a.name && attrib.value == a.value
  {
    hide ReadName, SkipWhiteSpace, ParseAttrValue, ValidName;
    AttrUnfold(s);
    hide ParseAttr;
    var p := SkipSpace(s);
    var named := ScanName(p);
    if named == None {
      return None;
    }
    attrib.name, p := named.value.0, named.value.1;
    p := SkipSpace(p);
    if p == [] || p[0] != '=' {
      return None;
    }
    p := SkipSpace(p[1..]);
    if p == [] {
      return None;
    }
    var valued := ScanAttrValue(p);
    if valued == None {
      return None;
    }
    attrib.value := valued.value.0;
    return Some(valued.value.1);
  }

  lemma AttrUnfold(s: string)
    ensures ParseAttr(s) ==
            match ReadName(SkipWhiteSpace(s))
            case None => None
            case Some((name, afterName)) =>
              var p := SkipWhiteSpace(afterName);
              if p == [] || p[0] != '=' || SkipWhiteSpace(p[1..]) == [] then None
              else match ParseAttrValue(SkipWhiteSpace(p[1..]))
                case None => None
                case Some((value, rest)) => Some((Attr(name, value), rest))
  {
  }

  method ScanAttrValue(s: string) returns (r: Option<(string, string)>)
    requires s != []
    ensures r == ParseAttrValue(s)
  {
    hide ReadText;
    if s[0] == '\'' {
      r := ScanText(s[1..], false, "'");
    } else if s[0] == '\"' {
      r := ScanText(s[1..], false, "\"");
    } else {
      var value, p := "", s;
      while p != [] && !IsWhiteSpace(p[0]) && p[0] != '/' && p[0] != '>'
        invariant |p| <= |s| && p == s[|s| - |p|..] && value == s[..|s| - |p|]
        invariant |s| - |p| + UnquotedLength(p) == UnquotedLength(s) && !HasQuote(value)
        decreases |p|
      {
        if p[0] == '\'' || p[0] == '\"' {
          assert p[0] == s[..UnquotedLength(s)][|s| - |p|];
          return None;
        }
        value := value + [p[0]];
        p := p[1..];
      }
      return Some((value, p));
    }
  }

  /** The bytes in front of a tag, and the cursor at it. */
  method ScanUntil(s: string, tag: string) returns (value: string, p: string)
    ensures value == s[..Find(s, tag)] && p == s[Find(s, tag)..]
  {
    hide Find;
    value, p := "", s;
    while p != [] && !(tag <= p)
      invariant |p| <= |s| && p == s[|s| - |p|..] && value == s[..|s| - |p|]
      invariant |s| - |p| + Find(p, tag) == Find(s, tag)
      decreases |p|
    {
      FindNext(p, tag);
      value := value + [p[0]];
      p := p[1..];
    }
    FindHere(p, tag);
  }

  lemma FindNext(p: string, tag: string)
    requires p != [] && !(tag <= p)
    ensures Find(p, tag) == 1 + Find(p[1..], tag)
  {
  }

  lemma FindHere(p: string, tag: string)
    requires p == [] || tag <= p
    ensures Find(p, tag) == 0
  {
  }

  // ---------- EncodeString ----------

  method EncodeString(str: string, prefix: string) returns (out: string)
    ensures out == prefix + Encode(str)
  {
    hide EncodeChar;
    out := prefix;
    var i := 0;
    while i < |str|
      invariant 0 <= i <= |str|
      invariant prefix + Encode(str) == out + Encode(str[i..])
    {
      if str[i] == '&' && i < |str| - 2 && str[i + 1] == '#' && str[i + 2] == 'x' {
        assert Encode(str[i..]) == PassThrough(str[i..]);
        out, i := CopyReference(str, i, out);
      } else {
        assert Encode(str[i..]) == EncodeChar(str[i]) + Encode(str[i + 1..]);
        assert out + (EncodeChar(str[i]) + Encode(str[i + 1..])) == (out + EncodeChar(str[i])) + Encode(str[i + 1..]);
        out, i := out + EncodeChar(str[i]), i + 1;
      }
    }
  }

  method CopyReference(str: string, start: nat, prefix: string) returns (out: string, i: nat)
    requires start + 1 < |str|
    ensures start < i < |str| && prefix + PassThrough(str[start..]) == out + Encode(str[i..])
  {
    hide Encode;
    out, i := prefix + [str[start]], start + 1;
    assert prefix + PassThrough(str[start..]) == out + PassTail(str[start..]);
    while i < |str| - 1 && str[i] != ';'
      invariant start < i < |str|
      invariant prefix + PassThrough(str[start..]) == out + PassTail(str[i - 1..])
      decreases |str| - i
    {
      PassTailUnfold(str[i - 1..]);
      assert str[i - 1..][1..] == str[i..];
      assert out + ([str[i]] + PassTail(str[i..])) == (out + [str[i]]) + PassTail(str[i..]);
      out, i := out + [str[i]], i + 1;
    }
    assert str[i - 1..][1..] == str[i..];
  }

  /** What PassThrough writes after the first character of s. */
  function PassTail(s: string): string
    requires |s| >= 2
  {
    if s[1] == ';' || |s| == 2 then Encode(s[1..]) else PassThrough(s[1..])
  }

  lemma PassTailUnfold(s: string)
    requires |s| > 2 && s[1] != ';'
    ensures PassTail(s) == [s[1]] + PassTail(s[1..])
  {
  }
}
