/** ConvertUTF32ToUTF8 and utf8ByteTable: writing code points as UTF-8, and stepping over the bytes again. */
module Utf8 {
  import opened Bytes

  type CodePoint = nat

  /** utf8ByteTable: how many bytes a character with this first byte has. */
  function ByteTable(lead: byte): (n: nat)
    ensures 1 <= n <= 4
  {
    if lead < 0xC2 then 1
    else if lead < 0xE0 then 2
    else if lead < 0xF0 then 3
    else if lead < 0xF5 then 4
    else 1
  }

  function Length(input: CodePoint): (n: nat)
    ensures n <= 4
  {
    if input < 0x80 then 1
    else if input < 0x800 then 2
    else if input < 0x1_0000 then 3
    else if input < 0x20_0000 then 4
    else 0
  }

  // ---------- the operations on bits ----------

  // A char keeps the low byte of a word, so the operations are on bytes.

  /** "(char)((input | BYTE_MARK) & BYTE_MASK)" */
  function Masked(input: CodePoint): byte {
    Value((Bits(input % 256) | 0x80) & 0xBF)
  }

  /** "(char)(input | FIRST_BYTE_MARK[length])" */
  function Marked(input: CodePoint, length: nat): byte {
    Value(Bits(input % 256) | FirstByteMark(length))
  }

  function FirstByteMark(length: nat): bv8 {
    if length == 2 then 0xC0 else if length == 3 then 0xE0 else if length == 4 then 0xF0 else 0
  }

  /** "input >>= 6" */
  function Next(input: CodePoint): CodePoint {
    input / 64
  }

  /** A later byte holds the last six bits behind the mark 10. */
  lemma MaskedIsSum(input: CodePoint)
    ensures Masked(input) == 0x80 + input % 64
  {
    hide Value, Bits;
    MaskedBits(Bits(input % 256));
  }

  /** The first byte holds the bits that are left behind the mark for the length. */
  lemma MarkedIsSum(input: CodePoint, length: nat)
    requires 1 <= length <= 4
    requires input < if length == 1 then 0x80 else if length == 2 then 0x20 else if length == 3 then 0x10 else 0x08
    ensures Marked(input, length) == input + if length == 1 then 0 else if length == 2 then 0xC0 else if length == 3 then 0xE0 else 0xF0
  {
    hide Value, Bits;
    var v := Bits(input);
    Below(v);
    match length {
      case 1 => assert v | 0 == v;
      case 2 => OrTwo(v);
      case 3 => OrThree(v);
      case _ => OrFour(v);
    }
  }

  // ---------- the encoding of section 3 of RFC 3629 ----------

  /** The bytes of a code point, the most significant bits first; nothing from 0x200000 on. */
  function Encoded(x: CodePoint): (r: seq<byte>)
    ensures |r| == Length(x)
  {
    if x < 0x80 then [x]
    else if x < 0x800 then [0xC0 + x / 64, 0x80 + x % 64]
    else if x < 0x1_0000 then [0xE0 + x / 64 / 64, 0x80 + x / 64 % 64, 0x80 + x % 64]
    else if x < 0x20_0000 then [0xF0 + x / 64 / 64 / 64, 0x80 + x / 64 / 64 % 64, 0x80 + x / 64 % 64, 0x80 + x % 64]
    else []
  }

  /** The bits of a character behind the marks of its bytes. */
  function Payload(s: seq<byte>): CodePoint {
    if |s| == 1 then s[0]
    else if |s| == 2 then Join(s[0] % 32, s[1])
    else if |s| == 3 then Join(Join(s[0] % 16, s[1]), s[2])
    else if |s| == 4 then Join(Join(Join(s[0] % 8, s[1]), s[2]), s[3])
    else 0
  }

  /** Six more bits. */
  function Join(bits: CodePoint, next: byte): CodePoint {
    64 * bits + next % 64
  }

  method LengthOf(input: CodePoint) returns (length: nat)
    ensures length == Length(input)
  {
    if input < 0x80 {
      length := 1;
    } else if input < 0x800 {
      length := 2;
    } else if input < 0x1_0000 {
      length := 3;
    } else if input < 0x20_0000 {
      length := 4;
    } else {
      length := 0;
    }
  }

  /** Writes the bytes from the last to the first and returns how many there are. */
  method ConvertUTF32ToUTF8(code: CodePoint, output: array<byte>, start: nat) returns (length: nat)
    requires start + Length(code) <= output.Length
    modifies output
    ensures length == Length(code)
    ensures output[..] == old(output[..start]) + Encoded(code) + old(output[start + length..])
  {
    hide *;
    BytesFromTheEnd(code);
    var input := code;
    length := LengthOf(input);
    if length == 0 {
      return;
    }
    ghost var orig, end, done: seq<byte> := output[..], start + length, [];
    var at := start + length;
    // The cases of the switch, each falling through to the next.
    if length == 4 {
      done := PutByte(output, at, Masked(input), orig, done, end);
      at, input := at - 1, Next(input);
    }
    if length >= 3 {
      done := PutByte(output, at, Masked(input), orig, done, end);
      at, input := at - 1, Next(input);
    }
    if length >= 2 {
      done := PutByte(output, at, Masked(input), orig, done, end);
      at, input := at - 1, Next(input);
    }
    done := PutByte(output, at, Marked(input, length), orig, done, end);
    assert done == Encoded(code);
  }

  /** "--output; *output = value", in front of the bytes written so far. */
  method PutByte(output: array<byte>, at: nat, value: byte, ghost orig: seq<byte>, ghost done: seq<byte>, ghost end: nat)
    returns (ghost done': seq<byte>)
    requires 0 < at && at + |done| == end <= output.Length == |orig|
    requires output[..] == orig[..at] + done + orig[end..]
    modifies output
    ensures done' == [value] + done && output[..] == orig[..at - 1] + done' + orig[end..]
  {
    output[at - 1] := value;
    done' := [value] + done;
  }

  lemma BytesFromTheEnd(x: CodePoint)
    ensures var a, b, c := Next(x), Next(Next(x)), Next(Next(Next(x)));
            (Length(x) == 0 ==> Encoded(x) == []) &&
            (Length(x) == 1 ==> Encoded(x) == [Marked(x, 1)] + []) &&
            (Length(x) == 2 ==> Encoded(x) == [Marked(a, 2)] + ([Masked(x)] + [])) &&
            (Length(x) == 3 ==> Encoded(x) == [Marked(b, 3)] + ([Masked(a)] + ([Masked(x)] + []))) &&
            (Length(x) == 4 ==> Encoded(x) == [Marked(c, 4)] + ([Masked(b)] + ([Masked(a)] + ([Masked(x)] + []))))
  {
    hide Masked, Marked;
    var a, b, c := Next(x), Next(Next(x)), Next(Next(Next(x)));
    MaskedIsSum(x);
    MaskedIsSum(a);
    MaskedIsSum(b);
    if Length(x) > 0 {
      MarkedIsSum(if Length(x) == 1 then x else if Length(x) == 2 then a else if Length(x) == 3 then b else c, Length(x));
    }
  }

  // ---------- reading back ----------

  /** The payload bits give the code point back. */
  lemma PayloadOfEncoded(x: CodePoint)
    requires x < 0x20_0000
    ensures Payload(Encoded(x)) == x
  {
    hide Join;
    JoinSplit(x);
    JoinSplit(x / 64);
    JoinSplit(x / 64 / 64);
  }

  /** No sequence of at most four bytes with these payload bits is shorter. */
  lemma ShortestForm(x: CodePoint, s: seq<byte>)
    requires x < 0x20_0000 && 1 <= |s| <= 4 && (|s| == 1 ==> s[0] < 0x80) && Payload(s) == x
    ensures |Encoded(x)| <= |s|
  {
  }

  lemma JoinSplit(x: CodePoint)
    ensures Join(x / 64, 0x80 + x % 64) == x
  {
  }

  /** The first byte tells the length of the character exactly below 0x140000; above, it tells less. */
  lemma LeadTellsLength(x: CodePoint)
    ensures Encoded(x) != [] && ByteTable(Encoded(x)[0]) == |Encoded(x)| <==> x < 0x14_0000
    ensures Encoded(x) != [] ==> ByteTable(Encoded(x)[0]) <= |Encoded(x)|
  {
  }

  /** Later bytes are in 0x80..0xBF and a first byte never is, so characters do not overlap. */
  lemma FirstByteDiffers(x: CodePoint)
    ensures forall i :: 0 <= i < |Encoded(x)| ==> (0x80 <= Encoded(x)[i] < 0xC0 <==> i > 0)
  {
  }

  function EncodedAll(s: seq<CodePoint>): seq<byte> {
    if s == [] then [] else Encoded(s[0]) + EncodedAll(s[1..])
  }

  function Characters(s: seq<CodePoint>): (r: seq<seq<byte>>)
    ensures |r| == |s| && forall i :: 0 <= i < |s| ==> r[i] == Encoded(s[i])
  {
    seq(|s|, i requires 0 <= i < |s| => Encoded(s[i]))
  }

  /** The characters that stepping by the table finds. */
  function Steps(s: seq<byte>): (r: seq<seq<byte>>)
    ensures forall c :: c in r ==> c != []
  {
    if s == [] then []
    else
      var n := if ByteTable(s[0]) <= |s| then ByteTable(s[0]) else |s|;
      [s[..n]] + Steps(s[n..])
  }

  function Payloads(s: seq<seq<byte>>): seq<CodePoint> {
    seq(|s|, i requires 0 <= i < |s| => Payload(s[i]))
  }

  /**
   Stepping by the table lands on the boundaries of the characters exactly when every code point is
   below 0x140000.
   */
  lemma {:induction false} StepsAreCharacters(s: seq<CodePoint>)
    ensures Steps(EncodedAll(s)) == Characters(s) <==> forall x :: x in s ==> x < 0x14_0000
  {
    hide Encoded, Characters, ByteTable;
    if s != [] {
      StepsAreCharacters(s[1..]);
      LeadTellsLength(s[0]);
      FirstStep(Encoded(s[0]), EncodedAll(s[1..]));
      CharactersUnfold(s);
      assert forall x :: x in s <==> x == s[0] || x in s[1..];
      if s[0] < 0x14_0000 {
        SameFirst(Encoded(s[0]), Steps(EncodedAll(s[1..])), Characters(s[1..]));
      } else {
        assert Characters(s)[0] == Encoded(s[0]);
        assert s[0] in s;
      }
    }
  }

  lemma SameFirst(c: seq<byte>, a: seq<seq<byte>>, b: seq<seq<byte>>)
    ensures [c] + a == [c] + b <==> a == b
  {
    assert ([c] + a)[1..] == a && ([c] + b)[1..] == b;
  }

  lemma CharactersUnfold(s: seq<CodePoint>)
    requires s != []
    ensures Characters(s) == [Encoded(s[0])] + Characters(s[1..])
  {
    hide Encoded;
  }

  lemma FirstStep(c: seq<byte>, rest: seq<byte>)
    ensures c != [] && ByteTable(c[0]) == |c| ==> Steps(c + rest) == [c] + Steps(rest)
    ensures c == [] || ByteTable(c[0]) < |c| ==> Steps(c + rest) == [] || Steps(c + rest)[0] != c
  {
    hide ByteTable;
    if c == [] {
      assert c + rest == rest;
    } else if ByteTable(c[0]) == |c| {
      assert (c + rest)[..|c|] == c && (c + rest)[|c|..] == rest;
    }
  }

  /** Below that bound, writing and stepping back over the bytes gives the same code points. */
  lemma DecodeAll(s: seq<CodePoint>)
    requires forall x :: x in s ==> x < 0x14_0000
    ensures Payloads(Steps(EncodedAll(s))) == s
  {
    hide Encoded, Payload;
    StepsAreCharacters(s);
    forall i | 0 <= i < |s|
      ensures Payload(Encoded(s[i])) == s[i]
    {
      assert s[i] in s;
      PayloadOfEncoded(s[i]);
    }
  }
}
