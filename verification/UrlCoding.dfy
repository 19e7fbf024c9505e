/** url_encode and url_decode, over buffers of bytes. */
module UrlCoding {
  import opened Bytes
  import opened Sequences

  const PERCENT: byte := 37
  const PLUS: byte := 43
  const BLANK: byte := 32

  predicate IsDigit(c: byte) {
    48 <= c <= 57
  }

  predicate IsUpper(c: byte) {
    65 <= c <= 90
  }

  predicate IsLower(c: byte) {
    97 <= c <= 122
  }

  predicate IsHex(c: byte) {
    IsDigit(c) || 65 <= c <= 70 || 97 <= c <= 102
  }

  function ToLower(c: byte): byte {
    if IsUpper(c) then c + 32 else c
  }

  /** The macro HEXTOI, for a digit in lower case. */
  function HexToI(c: byte): (v: int)
    requires IsHex(c) && !IsUpper(c)
    ensures 0 <= v < 16
  {
    if IsDigit(c) then c - 48 else c - 87
  }

  function HexDigit(v: int): (c: byte)
    requires 0 <= v < 16
    ensures IsHex(c) && !IsUpper(c) && HexToI(c) == v
  {
    if v < 10 then 48 + v else 87 + v
  }

  /** Letters, digits and the characters of dont_escape: ._-$,;~() */
  predicate IsPlain(c: byte) {
    IsDigit(c) || IsUpper(c) || IsLower(c) || c in [46, 95, 45, 36, 44, 59, 126, 40, 41]
  }

  // ---------- decoding ----------

  predicate StartsEscape(s: seq<byte>) {
    |s| > 2 && s[0] == PERCENT && IsHex(s[1]) && IsHex(s[2])
  }

  function EscapedByte(a: byte, b: byte): byte
    requires IsHex(a) && IsHex(b)
  {
    16 * HexToI(ToLower(a)) + HexToI(ToLower(b))
  }

  function Decode(s: seq<byte>, form: bool): seq<byte> {
    if s == [] then [] else [FirstDecoded(s, form)] + Decode(s[FirstLen(s)..], form)
  }

  /** How many bytes the first decoded one takes up. */
  function FirstLen(s: seq<byte>): (n: nat)
    requires s != []
    ensures 1 <= n <= |s|
  {
    if StartsEscape(s) then 3 else 1
  }

  function FirstDecoded(s: seq<byte>, form: bool): byte
    requires s != []
  {
    if StartsEscape(s) then EscapedByte(s[1], s[2]) else if form && s[0] == PLUS then BLANK else s[0]
  }

  /** How many bytes behind the first n belong to an escape that starts within them. */
  function Overrun(s: seq<byte>, n: nat): (over: nat)
    requires n <= |s|
    ensures n + over <= |s|
  {
    if n >= 1 && StartsEscape(s[n - 1..]) then 2 else if n >= 2 && StartsEscape(s[n - 2..]) then 1 else 0
  }

  /**
   Decodes the first srcLen bytes of src into dst, which may be the same buffer.  An escape that the end
   of the source cuts off is completed with the bytes behind it, if they are hexadecimal digits.
   */
  method UrlDecode(src: array<byte>, srcLen: nat, dst: array<byte>, dstLen: nat, form: bool) returns (j: nat)
    requires srcLen < src.Length && (IsHex(src[srcLen]) ==> srcLen + 1 < src.Length) && 1 <= dstLen <= dst.Length
    modifies dst
    ensures var decoded := Decode(old(src[..srcLen + Overrun(src[..], srcLen)]), form);
            j == Min(|decoded|, dstLen - 1) && dst[..j] == decoded[..j] && dst[j] == 0
    ensures forall k :: j < k < dst.Length ==> dst[k] == old(dst[k])
  {
    hide Decode, FirstLen, FirstDecoded, Overrun, Starts;
    ghost var all, n := src[..], srcLen + Overrun(src[..], srcLen);
    ghost var s := src[..n];
    var i := 0;
    j := 0;
    assert s[0..] == s;
    NotInside(all, srcLen, 0);
    while i < srcLen && j < dstLen - 1
      invariant j <= i <= n && j <= dstLen - 1 && Starts(all, srcLen, i)
      invariant forall k :: j <= k < dst.Length ==> dst[k] == old(dst[k])
      invariant Decode(s, form) == dst[..j] + Decode(s[i..], form)
    {
      ghost var was := dst[..j];
      DecodeUnfold(was, s, i, form);
      NextStarts(all, srcLen, i, form);
      assert src[i..] == all[i..];
      i := DecodeOne(src, i, dst, j, form);
      assert dst[..j + 1] == was + [dst[j]];
      j := j + 1;
    }
    if srcLen <= i {
      StartsMeans(all, srcLen, i);
    }
    NothingLeft(dst[..j], s[i..], form);
    dst[j] := 0;
  }

  /** One byte or one escape. */
  method DecodeOne(src: array<byte>, i: nat, dst: array<byte>, j: nat, form: bool) returns (next: nat)
    requires i < src.Length && j < dst.Length
    requires src[i] == PERCENT ==> i + 1 < src.Length && (IsHex(src[i + 1]) ==> i + 2 < src.Length)
    modifies dst
    ensures next == i + old(FirstLen(src[i..])) && dst[j] == old(FirstDecoded(src[i..], form))
    ensures forall k :: 0 <= k < dst.Length && k != j ==> dst[k] == old(dst[k])
  {
    hide EscapedByte;
    next := i + 1;
    if src[i] == PERCENT && IsHex(src[i + 1]) && IsHex(src[i + 2]) {
      LowerIsSame(src[i + 1], src[i + 2]);
      var a, b := ToLower(src[i + 1]), ToLower(src[i + 2]);
      dst[j] := EscapedByte(a, b);
      next := i + 3;
    } else if form && src[i] == PLUS {
      dst[j] := BLANK;
    } else {
      dst[j] := src[i];
    }
  }

  /** A place where the decoder can be: before the end of the source, or behind its last escape. */
  predicate Starts(s: seq<byte>, n: nat, i: nat)
    requires n <= |s|
  {
    (i >= n ==> i == n + Overrun(s, n)) && (Overrun(s, n) == 1 ==> i != n - 1)
  }

  lemma NotInside(s: seq<byte>, n: nat, i: nat)
    requires n <= |s| && i == 0
    ensures Starts(s, n, i)
  {
  }

  lemma StartsMeans(s: seq<byte>, n: nat, i: nat)
    requires n <= i && n <= |s| && Starts(s, n, i)
    ensures i == n + Overrun(s, n)
  {
  }

  lemma NextStarts(s: seq<byte>, n: nat, i: nat, form: bool)
    requires i < n <= |s| && Starts(s, n, i)
    ensures Starts(s, n, i + FirstLen(s[i..])) && i + FirstLen(s[i..]) <= n + Overrun(s, n)
    ensures var t := s[..n + Overrun(s, n)];
            FirstLen(t[i..]) == FirstLen(s[i..]) && FirstDecoded(t[i..], form) == FirstDecoded(s[i..], form)
  {
    hide EscapedByte, StartsEscape, IsHex;
    var t := s[..n + Overrun(s, n)];
    EscapeAt(s, i);
    EscapeAt(t, i);
    EscapeAt(s, n - 1);
    if n >= 2 {
      EscapeAt(s, n - 2);
    }
    NoHex();
    assert t[i] == s[i] && forall k :: i < k < |t| ==> t[i..][k - i] == s[i..][k - i] == s[k];
  }

  lemma EscapeAt(s: seq<byte>, i: nat)
    requires i < |s|
    ensures StartsEscape(s[i..]) <==> i + 2 < |s| && s[i] == PERCENT && IsHex(s[i + 1]) && IsHex(s[i + 2])
  {
    hide IsHex;
  }

  lemma NoHex()
    ensures !IsHex(PERCENT)
  {
  }

  lemma DecodeUnfold(done: seq<byte>, s: seq<byte>, i: nat, form: bool)
    requires i < |s|
    ensures done + Decode(s[i..], form) ==
            (done + [FirstDecoded(s[i..], form)]) + Decode(s[i + FirstLen(s[i..])..], form)
  {
    hide FirstDecoded, FirstLen;
    assert s[i..][FirstLen(s[i..])..] == s[i + FirstLen(s[i..])..];
  }

  lemma LowerIsSame(a: byte, b: byte)
    requires IsHex(a) && IsHex(b)
    ensures IsHex(ToLower(a)) && IsHex(ToLower(b)) && EscapedByte(ToLower(a), ToLower(b)) == EscapedByte(a, b)
  {
  }

  lemma NothingLeft(done: seq<byte>, s: seq<byte>, form: bool)
    ensures s == [] ==> done + Decode(s, form) == done
    ensures (done + Decode(s, form))[..|done|] == done
  {
  }

  // ---------- what decoding means ----------

  const LOWER_DIGITS: seq<byte> := [48, 49, 50, 51, 52, 53, 54, 55, 56, 57, 97, 98, 99, 100, 101, 102]
  const UPPER_DIGITS: seq<byte> := [48, 49, 50, 51, 52, 53, 54, 55, 56, 57, 65, 66, 67, 68, 69, 70]

  /** An escape is read as its two hexadecimal digits, in either case. */
  lemma EscapeDecodes(hi: nat, lo: nat, a: byte, b: byte, rest: seq<byte>, form: bool)
    requires hi < 16 && (a == LOWER_DIGITS[hi] || a == UPPER_DIGITS[hi])
    requires lo < 16 && (b == LOWER_DIGITS[lo] || b == UPPER_DIGITS[lo])
    ensures Decode([37, a, b] + rest, form) == [16 * hi + lo] + Decode(rest, form)
  {
    var s := [37, a, b] + rest;
    DigitReads(hi, a);
    DigitReads(lo, b);
    hide HexToI, ToLower, IsHex;
    assert s[0] == 37 && s[1] == a && s[2] == b && s[3..] == rest;
  }

  lemma DigitReads(v: nat, c: byte)
    requires v < 16 && (c == LOWER_DIGITS[v] || c == UPPER_DIGITS[v])
    ensures IsHex(c) && IsHex(ToLower(c)) && !IsUpper(ToLower(c)) && HexToI(ToLower(c)) == v
  {
  }

  /** Any other byte stands for itself, and a plus sign in a form for a blank. */
  lemma ByteDecodes(c: byte, rest: seq<byte>, form: bool)
    requires c != 37 || |rest| < 2 ||
             !((48 <= rest[0] <= 57 || 65 <= rest[0] <= 70 || 97 <= rest[0] <= 102) &&
               (48 <= rest[1] <= 57 || 65 <= rest[1] <= 70 || 97 <= rest[1] <= 102))
    ensures Decode([c] + rest, form) == [if form && c == 43 then 32 else c] + Decode(rest, form)
  {
    var s := [c] + rest;
    assert s[0] == c && s[1..] == rest && (|rest| >= 2 ==> s[1] == rest[0] && s[2] == rest[1]);
  }

  // ---------- encoding ----------

  function EncodeByte(c: byte): (r: seq<byte>)
    ensures |r| == 1 || |r| == 3
  {
    if IsPlain(c) then [c] else [PERCENT, HexDigit(c / 16), HexDigit(c % 16)]
  }

  function Encode(s: seq<byte>): seq<byte> {
    if s == [] then [] else EncodeByte(s[0]) + Encode(s[1..])
  }

  /** A byte url_encode writes, or a place it passes over without writing. */
  datatype Cell = Written(value: byte) | Skipped

  /** What becomes of the places of a buffer with the given room in front of the final NUL. */
  function Cells(s: seq<byte>, room: nat): (r: seq<Cell>)
    ensures |r| <= room
  {
    if s == [] || room == 0 then []
    else CellsOf(s[0], room) + Cells(s[1..], room - |CellsOf(s[0], room)|)
  }

  function CellsOf(c: byte, room: nat): (r: seq<Cell>)
    requires room > 0
    ensures 0 < |r| <= room
  {
    if IsPlain(c) then [Written(c)]
    else if room > 2 then [Written(PERCENT), Written(HexDigit(c / 16)), Written(HexDigit(c % 16))]
    else [Skipped]
  }

  function AllWritten(s: seq<byte>): (r: seq<Cell>)
    ensures |r| == |s| && forall i :: 0 <= i < |s| ==> r[i] == Written(s[i])
  {
    seq(|s|, i requires 0 <= i < |s| => Written(s[i]))
  }

  predicate Holds(buf: seq<byte>, was: seq<byte>, cells: seq<Cell>)
    requires |buf| == |was| && |cells| <= |buf|
  {
    forall k :: 0 <= k < |cells| ==> buf[k] == if cells[k].Written? then cells[k].value else was[k]
  }

  /** Encodes a C string; dstLen counts the final NUL. */
  method UrlEncode(src: seq<byte>, dst: array<byte>, dstLen: nat) returns (j: nat)
    requires 0 !in src && 1 <= dstLen <= dst.Length
    modifies dst
    ensures j == |Cells(src, dstLen - 1)| && Holds(dst[..], old(dst[..]), Cells(src, dstLen - 1))
    ensures dst[j] == 0 && forall k :: j < k < dst.Length ==> dst[k] == old(dst[k])
  {
    hide IsPlain, Cells, HexDigit;
    var i, end := 0, dstLen - 1;
    j := 0;
    ghost var done: seq<Cell> := [];
    assert src[0..] == src;
    while i < |src| && j < end
      invariant i <= |src| && j <= end && |done| == j
      invariant Cells(src, dstLen - 1) == done + Cells(src[i..], end - j)
      invariant Holds(dst[..], old(dst[..]), done)
      invariant forall k :: j <= k < dst.Length ==> dst[k] == old(dst[k])
    {
      CellsUnfold(done, src[i..], end - j);
      done := done + CellsOf(src[i], end - j);
      j := WriteByte(src[i], dst, j, end);
      i := i + 1;
    }
    CellsEnd(done, src[i..], end - j);
    dst[j] := 0;
  }

  /** One byte, escaped if need be, or a place passed over. */
  method WriteByte(c: byte, dst: array<byte>, at: nat, end: nat) returns (j: nat)
    requires at < end < dst.Length
    modifies dst
    ensures j == at + |CellsOf(c, end - at)| <= end
    ensures forall k :: 0 <= k < at || j <= k < dst.Length ==> dst[k] == old(dst[k])
    ensures var cells := CellsOf(c, end - at);
            forall k :: at <= k < j ==> dst[k] == if cells[k - at].Written? then cells[k - at].value else old(dst[k])
  {
    hide IsPlain, HexDigit;
    j := at;
    if IsPlain(c) {
      dst[j] := c;
    } else if j + 2 < end {
      dst[j], dst[j + 1], dst[j + 2] := PERCENT, HexDigit(c / 16), HexDigit(c % 16);
      j := j + 2;
    }
    j := j + 1;
  }

  lemma CellsUnfold(done: seq<Cell>, s: seq<byte>, room: nat)
    requires s != [] && room > 0
    ensures done + Cells(s, room) == (done + CellsOf(s[0], room)) + Cells(s[1..], room - |CellsOf(s[0], room)|)
  {
    hide CellsOf;
  }

  lemma CellsEnd(done: seq<Cell>, s: seq<byte>, room: nat)
    requires s == [] || room == 0
    ensures done + Cells(s, room) == done
  {
  }

  lemma {:induction false} EncodeAtMostTriples(s: seq<byte>)
    ensures |s| <= |Encode(s)| <= 3 * |s|
  {
    hide EncodeByte;
    if s != [] {
      EncodeAtMostTriples(s[1..]);
    }
  }

  /** The buffer holds the whole encoding exactly when it fits; otherwise places are passed over or bytes cut off. */
  lemma {:induction false} EncodingFits(s: seq<byte>, room: nat)
    ensures Cells(s, room) == AllWritten(Encode(s)) <==> |Encode(s)| <= room
  {
    hide IsPlain, HexDigit, CellsOf, EncodeByte;
    if s == [] {
    } else if room == 0 {
      EncodeAtMostTriples(s);
    } else if IsPlain(s[0]) || room > 2 {
      WholeByte(s[0], room);
      EncodingFits(s[1..], room - |EncodeByte(s[0])|);
      FitsStep(EncodeByte(s[0]), Encode(s[1..]), Cells(s[1..], room - |EncodeByte(s[0])|));
    } else {
      SkippedFirst(s, room);
    }
  }

  lemma WholeByte(c: byte, room: nat)
    requires (IsPlain(c) && room > 0) || room > 2
    ensures CellsOf(c, room) == AllWritten(EncodeByte(c))
  {
    hide IsPlain, HexDigit;
  }

  lemma SkippedFirst(s: seq<byte>, room: nat)
    requires s != [] && !IsPlain(s[0]) && 0 < room <= 2
    ensures Cells(s, room) != AllWritten(Encode(s)) && |Encode(s)| > room
  {
    hide IsPlain, HexDigit;
    assert |Encode(s)| >= 3;
    assert Cells(s, room)[0] == Skipped;
  }

  lemma FitsStep(first: seq<byte>, rest: seq<byte>, cells: seq<Cell>)
    ensures AllWritten(first) + cells == AllWritten(first + rest) <==> cells == AllWritten(rest)
  {
    if AllWritten(first) + cells == AllWritten(first + rest) {
      assert cells == (AllWritten(first) + cells)[|first|..];
      assert AllWritten(rest) == AllWritten(first + rest)[|first|..];
    }
    if cells == AllWritten(rest) {
      assert AllWritten(first) + cells == AllWritten(first + rest);
    }
  }

  /** What is written is safe: letters, digits, ._-$,;~() and the percent sign of escapes. */
  lemma {:induction false} EncodedAlphabet(s: seq<byte>)
    ensures forall i :: 0 <= i < |Encode(s)| ==>
      var c := Encode(s)[i];
      48 <= c <= 57 || 65 <= c <= 90 || 97 <= c <= 122 || c in [46, 95, 45, 36, 44, 59, 126, 40, 41] || c == 37
  {
    if s != [] {
      EncodedAlphabet(s[1..]);
      hide Encode;
      OneEncoded(s[0]);
      EncodeFirst(s);
      hide EncodeByte;
    }
  }

  lemma OneEncoded(c: byte)
    ensures forall i :: 0 <= i < |EncodeByte(c)| ==>
      var d := EncodeByte(c)[i];
      48 <= d <= 57 || 65 <= d <= 90 || 97 <= d <= 122 || d in [46, 95, 45, 36, 44, 59, 126, 40, 41] || d == 37
  {
  }

  lemma EncodeFirst(s: seq<byte>)
    requires s != []
    ensures Encode(s) == EncodeByte(s[0]) + Encode(s[1..])
  {
  }

  /** Such bytes other than the percent sign are left as they are. */
  lemma {:induction false} SafeUnchanged(s: seq<byte>)
    requires forall i :: 0 <= i < |s| ==>
      48 <= s[i] <= 57 || 65 <= s[i] <= 90 || 97 <= s[i] <= 122 || s[i] in [46, 95, 45, 36, 44, 59, 126, 40, 41]
    ensures Encode(s) == s
  {
    if s != [] {
      SafeUnchanged(s[1..]);
      SafeByte(s[0]);
      EncodeFirst(s);
      hide Encode, EncodeByte;
      assert s == [s[0]] + s[1..];
    }
  }

  lemma SafeByte(c: byte)
    requires 48 <= c <= 57 || 65 <= c <= 90 || 97 <= c <= 122 || c in [46, 95, 45, 36, 44, 59, 126, 40, 41]
    ensures EncodeByte(c) == [c]
  {
  }

  // ---------- round trip ----------

  lemma DecodeByte(c: byte, rest: seq<byte>, form: bool)
    ensures Decode(EncodeByte(c) + rest, form) == [c] + Decode(rest, form)
  {
    var s := EncodeByte(c) + rest;
    if IsPlain(c) {
      assert s[1..] == rest;
    } else {
      assert s[3..] == rest;
      assert EscapedByte(HexDigit(c / 16), HexDigit(c % 16)) == c;
    }
  }

  /** Decoding undoes encoding, as a form field or not. */
  lemma {:induction false} DecodeEncode(s: seq<byte>, form: bool)
    ensures Decode(Encode(s), form) == s
  {
    hide EncodeByte, Decode;
    if s == [] {
      DecodeNothing(form);
    } else {
      DecodeByte(s[0], Encode(s[1..]), form);
      DecodeEncode(s[1..], form);
    }
  }

  lemma DecodeNothing(form: bool)
    ensures Decode([], form) == []
  {
  }

  /** Encodes into a buffer of 3n + 1 bytes and decodes in place: the string comes back. */
  method EncodeAndDecode(s: seq<byte>, form: bool) returns (again: seq<byte>)
    requires 0 !in s
    ensures again == s
  {
    hide Cells, Decode, Encode;
    var size := 3 * |s| + 1;
    var buf := new byte[size](_ => 0);
    var n := UrlEncode(s, buf, size);
    EncodeAtMostTriples(s);
    EncodingFits(s, size - 1);
    assert buf[..n] == Encode(s);
    DecodeEncode(s, form);
    var m := UrlDecode(buf, n, buf, size, form);
    EncodeAtMostTriples(s);
    return buf[..m];
  }
}
