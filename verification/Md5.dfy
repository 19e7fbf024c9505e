/** MD5Init, MD5Update and MD5Final around a compression function that takes a state and a block of 64 bytes. */
module Md5 {
  import opened Bytes
  import opened Sequences

  // ---------- the specification: sections 3.1 and 3.2 of RFC 1321 ----------

  function Zeros(n: nat): (r: seq<byte>)
    ensures |r| == n
  {
    seq(n, _ => 0)
  }

  /** How many bytes do not fill a block yet. */
  function Pending(n: nat): (r: nat)
    ensures r < 64 && r <= n && (n - r) % 64 == 0
  {
    n % 64
  }

  /** The least number of zero bytes that brings the length after the byte 0x80 to 56 modulo 64. */
  function ZeroCount(n: nat): (k: nat)
    ensures k < 64 && (n + 1 + k) % 64 == 56
  {
    if Pending(n) < 56 then 55 - Pending(n) else 119 - Pending(n)
  }

  /** A 32-bit word as bytes, the low-order byte first. */
  function WordBytes(x: nat): (r: seq<byte>)
    ensures |r| == 4
  {
    [x % 256, x / 256 % 256, x / 65536 % 256, x / 16777216 % 256]
  }

  /** A 64-bit number as two words, the low-order word first. */
  function LengthBytes(x: nat): (r: seq<byte>)
    ensures |r| == 8
  {
    WordBytes(x % 0x1_0000_0000) + WordBytes(x / 0x1_0000_0000)
  }

  /** The message, 0x80, zeros, and the length in bits modulo 2^64. */
  function Padded(m: seq<byte>): (r: seq<byte>)
    ensures |r| % 64 == 0
  {
    hide *;
    EightMore(|m| + 1 + ZeroCount(|m|));
    m + [0x80] + Zeros(ZeroCount(|m|)) + LengthBytes(BitLength(|m|))
  }

  function BitLength(n: nat): nat {
    8 * n % 0x1_0000_0000_0000_0000
  }

  lemma EightMore(n: nat)
    ensures n % 64 == 56 ==> (n + 8) % 64 == 0
  {
  }

  /** The compression function over all blocks, from the first to the last. */
  function Fold<S>(transform: (S, seq<byte>) -> S, start: S, m: seq<byte>): S
    requires |m| % 64 == 0
    decreases |m|
  {
    if m == [] then start
    else
      assert |m| >= 64;
      transform(Fold(transform, start, m[..|m| - 64]), m[|m| - 64..])
  }

  lemma FoldNext<S>(transform: (S, seq<byte>) -> S, start: S, m: seq<byte>, block: seq<byte>)
    requires |m| % 64 == 0 && |block| == 64
    ensures |m + block| % 64 == 0
    ensures Fold(transform, start, m + block) == transform(Fold(transform, start, m), block)
  {
    assert (m + block)[..|m|] == m && (m + block)[|m|..] == block;
  }

  // ---------- the two words of the bit count ----------

  /** The words hold eight times the byte count, modulo 2^64. */
  predicate CountsBits(bits0: nat, bits1: nat, n: nat) {
    bits0 == 8 * n % 0x1_0000_0000 && bits1 == n / 0x2000_0000 % 0x1_0000_0000
  }

  lemma LowWord(n: nat)
    ensures 8 * n % 0x1_0000_0000 == 8 * (n % 0x2000_0000)
  {
    assert 8 * n == 0x1_0000_0000 * (n / 0x2000_0000) + 8 * (n % 0x2000_0000);
  }

  lemma HighWord(a: nat, c: nat)
    ensures (a % 0x1_0000_0000 + c) % 0x1_0000_0000 == (a + c) % 0x1_0000_0000
  {
    var k := a / 0x1_0000_0000;
    assert a + c == 0x1_0000_0000 * k + (a % 0x1_0000_0000 + c);
  }

  /** What MD5Update makes of the two words. */
  function AddLow(bits0: nat, len: nat): nat {
    (bits0 + 8 * len % 0x1_0000_0000) % 0x1_0000_0000
  }

  function AddHigh(bits0: nat, bits1: nat, len: nat): nat {
    var carried := if AddLow(bits0, len) < bits0 then (bits1 + 1) % 0x1_0000_0000 else bits1;
    (carried + len / 0x2000_0000) % 0x1_0000_0000
  }

  /** Adding a length: the low word has wrapped exactly when the sum is below the old word. */
  lemma CountAdded(bits0: nat, bits1: nat, n: nat, len: nat)
    requires CountsBits(bits0, bits1, n) && len < 0x1_0000_0000
    ensures CountsBits(AddLow(bits0, len), AddHigh(bits0, bits1, len), n + len)
  {
    hide AddLow;
    var carry := if n % 0x2000_0000 + len % 0x2000_0000 < 0x2000_0000 then 0 else 1;
    SumOfLengths(n, len, carry);
    LowAdded(n, len, carry);
    HighAdded(n / 0x2000_0000, len / 0x2000_0000, carry);
  }

  lemma HighAdded(a: nat, c: nat, carry: nat)
    requires carry <= 1
    ensures ((if carry == 1 then (a % 0x1_0000_0000 + 1) % 0x1_0000_0000 else a % 0x1_0000_0000) + c) % 0x1_0000_0000 ==
            (a + c + carry) % 0x1_0000_0000
  {
    HighWord(a, c);
    if carry == 1 {
      HighWord(a, 1);
      HighWord(a + 1, c);
      assert a + 1 + c == a + c + 1;
    }
  }

  lemma SumOfLengths(n: nat, len: nat, carry: nat)
    requires carry == if n % 0x2000_0000 + len % 0x2000_0000 < 0x2000_0000 then 0 else 1
    ensures (n + len) / 0x2000_0000 == n / 0x2000_0000 + len / 0x2000_0000 + carry
    ensures (n + len) % 0x2000_0000 == n % 0x2000_0000 + len % 0x2000_0000 - 0x2000_0000 * carry
  {
  }

  lemma LowAdded(n: nat, len: nat, carry: nat)
    requires carry == if n % 0x2000_0000 + len % 0x2000_0000 < 0x2000_0000 then 0 else 1
    ensures AddLow(8 * n % 0x1_0000_0000, len) == 8 * (n + len) % 0x1_0000_0000
    ensures AddLow(8 * n % 0x1_0000_0000, len) < 8 * n % 0x1_0000_0000 <==> carry == 1
  {
    LowWord(n);
    LowWord(len);
    LowWord(n + len);
    SumOfLengths(n, len, carry);
  }

  lemma PendingFromBits(bits0: nat, bits1: nat, n: nat)
    requires CountsBits(bits0, bits1, n)
    ensures bits0 / 8 % 64 == Pending(n)
  {
    hide Pending;
    LowWord(n);
    EighthOf(n % 0x2000_0000);
    PendingIn(n, 0x80_0000 * (n / 0x2000_0000), n % 0x2000_0000);
  }

  lemma EighthOf(r: nat)
    ensures 8 * r / 8 == r
  {
  }

  lemma PendingIn(n: nat, k: nat, r: nat)
    requires n == 64 * k + r
    ensures r % 64 == Pending(n)
  {
  }

  /** Written one after the other, the two words are the length field of the padding. */
  lemma WordsAreLength(bits0: nat, bits1: nat, n: nat)
    requires CountsBits(bits0, bits1, n)
    ensures bits0 + 0x1_0000_0000 * bits1 == BitLength(n)
    ensures WordBytes(bits0) + WordBytes(bits1) == LengthBytes(BitLength(n))
  {
    hide WordBytes;
    var a := n / 0x2000_0000;
    LowWord(n);
    TwoWords(8 * n, a, a / 0x1_0000_0000, bits0, bits1);
  }

  lemma TwoWords(x: nat, a: nat, q: nat, low: nat, high: nat)
    requires low < 0x1_0000_0000 && high < 0x1_0000_0000
    requires x == 0x1_0000_0000 * a + low && a == 0x1_0000_0000 * q + high
    ensures low + 0x1_0000_0000 * high == x % 0x1_0000_0000_0000_0000
    ensures low == x % 0x1_0000_0000_0000_0000 % 0x1_0000_0000
    ensures high == x % 0x1_0000_0000_0000_0000 / 0x1_0000_0000
  {
    assert x == 0x1_0000_0000_0000_0000 * q + (low + 0x1_0000_0000 * high);
  }

  // ---------- what the padding is ----------

  /** The number whose digits in base 256 are the bytes, the lowest first. */
  function Number(s: seq<byte>): nat {
    if s == [] then 0 else s[0] + 256 * Number(s[1..])
  }

  lemma WordNumber(x: nat)
    requires x < 0x1_0000_0000
    ensures Number(WordBytes(x)) == x
  {
    var s := WordBytes(x);
    FourDigits(s);
    var a, b, c := x / 256, x / 65536, x / 16777216;
    assert a / 256 == b && b / 256 == c;
    assert x == 256 * a + s[0] && a == 256 * b + s[1] && b == 256 * c + s[2] && c == s[3];
  }

  lemma FourDigits(s: seq<byte>)
    requires |s| == 4
    ensures Number(s) == s[0] as int + 256 * (s[1] as int + 256 * (s[2] as int + 256 * s[3] as int))
  {
    assert s[1..][1..] == s[2..] && s[2..][1..] == s[3..] && s[3..][1..] == [];
    assert Number(s[3..]) == s[3];
    assert Number(s[2..]) == s[2] as int + 256 * s[3] as int;
  }

  lemma {:induction false} NumberOfBoth(a: seq<byte>, b: seq<byte>)
    requires |a| == 4
    ensures Number(a + b) == Number(a) + 0x1_0000_0000 * Number(b)
  {
    var s := a + b;
    FourDigits(a);
    assert s[1..][1..] == s[2..] && s[2..][1..] == s[3..] && s[3..][1..] == b;
    assert Number(s[3..]) == s[3] + 256 * Number(b);
    assert Number(s[2..]) == s[2] + 256 * (s[3] + 256 * Number(b));
    assert Number(s[1..]) == s[1] + 256 * (s[2] + 256 * (s[3] + 256 * Number(b)));
  }

  lemma LengthNumber(x: nat)
    requires x < 0x1_0000_0000_0000_0000
    ensures Number(LengthBytes(x)) == x
  {
    hide Number, WordBytes;
    var low, high := x % 0x1_0000_0000, x / 0x1_0000_0000;
    WordNumber(low);
    WordNumber(high);
    NumberOfBoth(WordBytes(low), WordBytes(high));
  }

  /**
   The padded message, byte by byte: the message, 0x80, as few zeros as fill up a block, and in the last
   eight bytes the length of the message in bits modulo 2^64, the lowest byte first.
   */
  lemma PaddedMeans(m: seq<byte>)
    ensures var p := Padded(m);
            |p| % 64 == 0 && |m| + 9 <= |p| < |m| + 73 && p[..|m|] == m && p[|m|] == 0x80 &&
            (forall i :: |m| < i < |p| - 8 ==> p[i] == 0) &&
            Number(p[|p| - 8..]) == 8 * |m| % 0x1_0000_0000_0000_0000
  {
    hide Number, LengthBytes;
    var p, length := Padded(m), LengthBytes(BitLength(|m|));
    LengthNumber(BitLength(|m|));
    assert p == m + [0x80] + Zeros(ZeroCount(|m|)) + length;
    assert p[|p| - 8..] == length;
  }

  // ---------- the context ----------

  method MemCpy(dest: array<byte>, at: nat, src: seq<byte>)
    requires at + |src| <= dest.Length
    modifies dest
    ensures dest[..] == old(dest[..at]) + src + old(dest[at + |src|..])
  {
    forall i | 0 <= i < |src| {
      dest[at + i] := src[i];
    }
  }

  method MemSet(dest: array<byte>, at: nat, count: nat)
    requires at + count <= dest.Length
    modifies dest
    ensures dest[..] == old(dest[..at]) + Zeros(count) + old(dest[at + count..])
  {
    forall i | 0 <= i < count {
      dest[at + i] := 0;
    }
  }

  /** The state after the full blocks of a message, and the bytes that wait for the next block. */
  ghost predicate Absorbed<S>(transform: (S, seq<byte>) -> S, start: S, m: seq<byte>, buf: S, waiting: seq<byte>) {
    var n := |m| - Pending(|m|);
    buf == Fold(transform, start, m[..n]) && waiting == m[n..]
  }

  lemma AbsorbedAs<S>(transform: (S, seq<byte>) -> S, start: S, full: seq<byte>, waiting: seq<byte>)
    requires |full| % 64 == 0 && |waiting| < 64
    ensures Absorbed(transform, start, full + waiting, Fold(transform, start, full), waiting)
    ensures Pending(|full + waiting|) == |waiting|
  {
    hide Pending, Fold;
    PendingIn(|full + waiting|, |full| / 64, |waiting|);
    assert (full + waiting)[..|full|] == full;
  }

  lemma AbsorbedSplit<S>(transform: (S, seq<byte>) -> S, start: S, m: seq<byte>, buf: S, waiting: seq<byte>) returns (full: seq<byte>)
    requires Absorbed(transform, start, m, buf, waiting)
    ensures |full| % 64 == 0 && m == full + waiting && buf == Fold(transform, start, full)
    ensures |waiting| == Pending(|m|)
  {
    hide Pending, Fold;
    full := m[..|m| - Pending(|m|)];
  }

  class Context<S> {
    const transform: (S, seq<byte>) -> S
    const start: S
    const input: array<byte>
    var buf: S
    var bits0: nat
    var bits1: nat
    ghost var message: seq<byte>

    ghost predicate Valid()
      reads this, input
    {
      input.Length == 64 && CountsBits(bits0, bits1, |message|) &&
      Absorbed(transform, start, message, buf, input[..Pending(|message|)])
    }

    /** MD5Init. */
    constructor (transform: (S, seq<byte>) -> S, start: S)
      ensures Valid() && fresh(input) && message == []
      ensures this.transform == transform && this.start == start
    {
      this.transform, this.start := transform, start;
      buf, bits0, bits1 := start, 0, 0;
      input := new byte[64];
      message := [];
      new;
      AbsorbedAs(transform, start, [], []);
    }

    /** MD5Update. */
    method Update(data: seq<byte>)
      requires Valid() && |data| < 0x1_0000_0000
      modifies this`buf, this`bits0, this`bits1, this`message, input
      ensures Valid() && message == old(message) + data
    {
      hide Absorbed, CountsBits;
      ghost var full := AbsorbedSplit(transform, start, message, buf, input[..Pending(|message|)]);
      var t := bits0;
      Count(|data|);
      PendingFromBits(t, old(bits1), |message|);
      Absorb(data, t / 8 % 64, full);
      message := message + data;
    }

    /** Adds a length to the count of bits. */
    method Count(len: nat)
      requires len < 0x1_0000_0000
      modifies this`bits0, this`bits1
      ensures bits0 == AddLow(old(bits0), len) && bits1 == AddHigh(old(bits0), old(bits1), len)
      ensures CountsBits(old(bits0), old(bits1), |message|) ==> CountsBits(bits0, bits1, |message| + len)
    {
      var t := bits0;
      bits0 := (t + 8 * len % 0x1_0000_0000) % 0x1_0000_0000;
      if bits0 < t {
        bits1 := (bits1 + 1) % 0x1_0000_0000;
      }
      bits1 := (bits1 + len / 0x2000_0000) % 0x1_0000_0000;
      if CountsBits(t, old(bits1), |message|) {
        CountAdded(t, old(bits1), |message|, len);
      }
    }

    /** The part of MD5Update behind the count: fills up the waiting block and takes in full ones. */
    method Absorb(data: seq<byte>, t: nat, ghost full: seq<byte>)
      requires input.Length == 64 && t < 64 && |full| % 64 == 0 && buf == Fold(transform, start, full)
      modifies this`buf, input
      ensures var m := full + old(input[..t]) + data;
              Absorbed(transform, start, m, buf, input[..Pending(|m|)])
    {
      hide *;
      var rest := data;
      ghost var full' := full;
      ghost var m := full + old(input[..t]) + data;
      if t != 0 {
        if |rest| < 64 - t {
          MemCpy(input, t, rest);
          assert input[..t + |rest|] == old(input[..t]) + rest;
          AbsorbedAs(transform, start, full, old(input[..t]) + rest);
          assert m == full + (old(input[..t]) + rest);
          return;
        }
        MemCpy(input, t, rest[..64 - t]);
        assert input[..] == old(input[..t]) + rest[..64 - t];
        FoldNext(transform, start, full', input[..]);
        full' := full' + input[..];
        buf := transform(buf, input[..]);
        assert rest == rest[..64 - t] + rest[64 - t..];
        rest := rest[64 - t..];
      }
      assert full' + rest == m;
      AbsorbBlocks(rest, full');
    }

    /** The loop over full blocks, and the copy of what is left. */
    method AbsorbBlocks(data: seq<byte>, ghost full: seq<byte>)
      requires input.Length == 64 && |full| % 64 == 0 && buf == Fold(transform, start, full)
      modifies this`buf, input
      ensures Absorbed(transform, start, full + data, buf, input[..Pending(|full + data|)])
    {
      hide *;
      var rest := data;
      ghost var full' := full;
      while |rest| >= 64
        invariant |full'| % 64 == 0 && buf == Fold(transform, start, full')
        invariant full' + rest == full + data
      {
        MemCpy(input, 0, rest[..64]);
        assert input[..] == rest[..64];
        FoldNext(transform, start, full', rest[..64]);
        buf := transform(buf, input[..]);
        assert (full' + rest[..64]) + rest[64..] == full' + rest;
        full', rest := full' + rest[..64], rest[64..];
      }
      MemCpy(input, 0, rest);
      assert input[..|rest|] == rest;
      AbsorbedAs(transform, start, full', rest);
    }

    /** MD5Final, up to the copy of the state to the digest. */
    method Final() returns (digest: S)
      requires Valid()
      modifies this`buf, input
      ensures digest == Fold(transform, start, Padded(message))
    {
      hide *;
      ghost var full, waiting := FinalSplit();
      PaddedAs(message, full, waiting, bits0, bits1);
      var count := bits0 / 8 % 64;
      input[count] := 0x80;
      assert input[..count + 1] == waiting + [0x80];
      full := ZeroFill(count, full, waiting + [0x80]);
      ghost var head := input[..56];
      MemCpy(input, 56, WordBytes(bits0));
      MemCpy(input, 60, WordBytes(bits1));
      assert input[..] == head + (WordBytes(bits0) + WordBytes(bits1));
      FoldNext(transform, start, full, input[..]);
      assert full + input[..] == full + head + (WordBytes(bits0) + WordBytes(bits1));
      buf := transform(buf, input[..]);
      return buf;
    }

    /** Fills up with zeros to byte 56, over the end of the block if it is too short. */
    method ZeroFill(used: nat, ghost full: seq<byte>, ghost head: seq<byte>) returns (ghost full': seq<byte>)
      requires input.Length == 64 && used < 64 && |full| % 64 == 0 && buf == Fold(transform, start, full)
      requires |head| == used + 1 && input[..used + 1] == head
      modifies this`buf, input
      ensures |full'| % 64 == 0 && buf == Fold(transform, start, full')
      ensures full' + input[..56] == full + (head + Zeros(if used < 56 then 55 - used else 119 - used))
    {
      hide *;
      var count := 64 - 1 - used;
      full' := full;
      if count < 8 {
        full' := LastButOne(used, full, head);
      } else {
        MemSet(input, used + 1, count - 8);
        assert input[..56] == head + Zeros(count - 8);
      }
    }

    /** The rest of this block and the next one up to byte 56. */
    method LastButOne(used: nat, ghost full: seq<byte>, ghost head: seq<byte>) returns (ghost full': seq<byte>)
      requires input.Length == 64 && 56 <= used < 64 && |full| % 64 == 0 && buf == Fold(transform, start, full)
      requires |head| == used + 1 && input[..used + 1] == head
      modifies this`buf, input
      ensures |full'| % 64 == 0 && buf == Fold(transform, start, full')
      ensures full' + input[..56] == full + (head + Zeros(119 - used))
    {
      hide *;
      MemSet(input, used + 1, 63 - used);
      assert input[..] == head + Zeros(63 - used);
      FoldNext(transform, start, full, input[..]);
      full' := full + input[..];
      buf := transform(buf, input[..]);
      MemSet(input, 0, 56);
      assert input[..56] == Zeros(56);
      TwoZeros(63 - used, 56);
      ZerosJoin(full, head, Zeros(63 - used), Zeros(56));
    }

    static lemma ZerosJoin(full: seq<byte>, head: seq<byte>, a: seq<byte>, b: seq<byte>)
      ensures full + (head + a) + b == full + (head + (a + b))
    {
    }

    lemma FinalSplit() returns (full: seq<byte>, waiting: seq<byte>)
      requires Valid()
      ensures input.Length == 64 && CountsBits(bits0, bits1, |message|) && |waiting| == bits0 / 8 % 64
      ensures |full| % 64 == 0 && message == full + waiting && buf == Fold(transform, start, full)
      ensures input[..|waiting|] == waiting
    {
      hide Absorbed, CountsBits, Pending, Fold;
      waiting := input[..Pending(|message|)];
      full := AbsorbedSplit(transform, start, message, buf, waiting);
      PendingFromBits(bits0, bits1, |message|);
    }
  }

  /** The bytes MD5Final hands on are the padded message. */
  lemma PaddedAs(m: seq<byte>, full: seq<byte>, waiting: seq<byte>, bits0: nat, bits1: nat)
    requires m == full + waiting && |full| % 64 == 0 && |waiting| < 64 && CountsBits(bits0, bits1, |m|)
    ensures var zeros := if |waiting| < 56 then 55 - |waiting| else 119 - |waiting|;
            Padded(m) == full + (waiting + [0x80] + Zeros(zeros)) + (WordBytes(bits0) + WordBytes(bits1))
  {
    hide WordBytes, LengthBytes, BitLength, CountsBits, Pending;
    WordsAreLength(bits0, bits1, |m|);
    PendingIn(|m|, |full| / 64, |waiting|);
    PaddedParts(full, waiting, Zeros(ZeroCount(|m|)), LengthBytes(BitLength(|m|)));
  }

  lemma PaddedParts(full: seq<byte>, waiting: seq<byte>, zeros: seq<byte>, length: seq<byte>)
    ensures full + waiting + [0x80] + zeros + length == full + (waiting + [0x80] + zeros) + length
  {
  }

  lemma TwoZeros(a: nat, b: nat)
    ensures Zeros(a) + Zeros(b) == Zeros(a + b)
  {
  }

  // ---------- mg_md5 ----------

  /** Whatever pieces the message comes in, the result is the fold over the padded message. */
  method Md5<S>(transform: (S, seq<byte>) -> S, start: S, pieces: seq<seq<byte>>) returns (digest: S)
    requires forall p :: p in pieces ==> |p| < 0x1_0000_0000
    ensures digest == Fold(transform, start, Padded(Concat(pieces)))
  {
    var ctx := new Context(transform, start);
    var i := 0;
    while i < |pieces|
      invariant i <= |pieces| && ctx.Valid() && ctx.message == Concat(pieces[..i]) && fresh(ctx) && fresh(ctx.input)
    {
      hide Context.Valid;
      ctx.Update(pieces[i]);
      assert pieces[..i + 1][..i] == pieces[..i];
      i := i + 1;
    }
    assert pieces[..i] == pieces;
    digest := ctx.Final();
  }
}
