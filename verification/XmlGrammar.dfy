/** The characters, words and values that may be written in a document, and what they stand for. */
module XmlGrammar {
  import opened Wrappers
  import opened XmlText
  import opened XmlTree
  import opened XmlTextRoundTrip
  import opened XmlRoundTrip
  import opened XmlLag
  import opened XmlStable
  import opened XmlExact

  // ---------- numeric references ----------

  const LOWER_DIGITS := "0123456789abcdef"
  const UPPER_DIGITS := "0123456789ABCDEF"

  /** The word spells the digits, letters in either case. */
  predicate Spells(word: string, digits: seq<nat>, base: nat) {
    |word| == |digits| && base <= 16 &&
    forall i :: 0 <= i < |word| ==>
      digits[i] < base && (word[i] == LOWER_DIGITS[digits[i]] || word[i] == UPPER_DIGITS[digits[i]])
  }

  /** The number with the given digits. */
  function Number(digits: seq<nat>, base: nat): nat {
    if digits == [] then 0 else base * Number(digits[..|digits| - 1], base) + digits[|digits| - 1]
  }

  /** What the digits of a reference stand behind. */
  predicate IsStop(c: char) {
    c == '#' || c == 'x'
  }

  lemma DigitReads(c: char, d: nat, base: nat)
    requires (base == 10 || base == 16) && d < base && (c == LOWER_DIGITS[d] || c == UPPER_DIGITS[d])
    ensures DigitValue(c, base) == Some(d) && !IsStop(c) && c != ';'
  {
  }

  lemma DigitSpelled(c: char, base: nat)
    requires (base == 10 || base == 16) && DigitValue(c, base).Some?
    ensures var d := DigitValue(c, base).value; d < base && (c == LOWER_DIGITS[d] || c == UPPER_DIGITS[d])
  {
  }

  /** What is left of a sum in one byte. */
  function LastByte(ucs: nat, mult: nat, n: nat): nat {
    (ucs + mult * n) % 256
  }

  /** A product of 32-bit unsigned numbers. */
  function Times(a: nat, b: nat): nat {
    a * b % UNSIGNED_RANGE
  }

  /** Dropping multiples of 2^32 does not change the last byte. */
  lemma WrapsAway(ucs: nat, mult: nat, d: nat, base: nat, n: nat)
    ensures LastByte(ucs + Times(mult, d), Times(mult, base), n) == LastByte(ucs, mult, base * n + d)
  {
    var a, b := mult * d, mult * base;
    var i, j := a / UNSIGNED_RANGE, b / UNSIGNED_RANGE;
    var left, right := ucs + a % UNSIGNED_RANGE + b % UNSIGNED_RANGE * n, ucs + mult * (base * n + d);
    Product(mult, base, n, d);
    Multiples(b, j, n);
    assert right == left + 256 * (0x100_0000 * (i + j * n));
    SameByte(left, right, 0x100_0000 * (i + j * n));
  }

  lemma Product(mult: nat, base: nat, n: nat, d: nat)
    ensures mult * (base * n + d) == mult * base * n + mult * d
  {
  }

  lemma Multiples(b: nat, j: nat, n: nat)
    requires j == b / UNSIGNED_RANGE
    ensures b * n == b % UNSIGNED_RANGE * n + UNSIGNED_RANGE * (j * n)
  {
    var r := b % UNSIGNED_RANGE;
    assert b == r + UNSIGNED_RANGE * j;
    Distribute(r, UNSIGNED_RANGE * j, n);
    Associate(UNSIGNED_RANGE, j, n);
  }

  lemma Distribute(x: nat, y: nat, n: nat)
    ensures (x + y) * n == x * n + y * n
  {
  }

  lemma Associate(x: nat, y: nat, n: nat)
    ensures x * y * n == x * (y * n)
  {
  }

  lemma SameByte(a: nat, b: nat, k: nat)
    requires b == a + 256 * k
    ensures a % 256 == b % 256
  {
  }

  lemma NextDigit(s: string, q: nat, stopAt: nat, base: nat, mult: nat, ucs: nat, d: nat)
    requires stopAt < q < |s| && s[q] != s[stopAt] && DigitValue(s[q], base) == Some(d)
    ensures NumericRef(s, q, stopAt, base, mult, ucs) ==
            NumericRef(s, q - 1, stopAt, base, Times(mult, base), ucs + Times(mult, d))
  {
  }

  lemma FirstDigit(s: string, stop: nat, stopAt: nat, digits: seq<nat>, base: nat, mult: nat, ucs: nat)
    requires stopAt <= stop < |s| && s[stop] == s[stopAt] && digits == []
    ensures NumericRef(s, stop, stopAt, base, mult, ucs) == Some(ucs) && Number(digits, base) == 0
    ensures LastByte(ucs, mult, 0) == ucs % 256
  {
  }

  /** The word behind position stop spells the digits. */
  predicate SpellsAt(s: string, stop: nat, digits: seq<nat>, base: nat) {
    stop + |digits| < |s| && Spells(s[stop + 1..stop + 1 + |digits|], digits, base)
  }

  lemma LastDigit(s: string, stop: nat, digits: seq<nat>, base: nat)
    requires (base == 10 || base == 16) && digits != [] && SpellsAt(s, stop, digits, base)
    ensures var n := |digits| - 1;
            stop + n + 1 < |s| && DigitValue(s[stop + n + 1], base) == Some(digits[n]) && !IsStop(s[stop + n + 1]) &&
            SpellsAt(s, stop, digits[..n], base) && Number(digits, base) == base * Number(digits[..n], base) + digits[n]
  {
    var n := |digits| - 1;
    var word := s[stop + 1..stop + 1 + |digits|];
    assert word[n] == s[stop + n + 1];
    DigitReads(word[n], digits[n], base);
    assert s[stop + 1..stop + 1 + n] == word[..n];
  }

  /** From the last digit leftwards to the stop character, the character is the number modulo 256. */
  lemma {:induction false} DigitsRead(s: string, stop: nat, stopAt: nat, digits: seq<nat>, base: nat, mult: nat, ucs: nat)
    requires (base == 10 || base == 16) && stopAt <= stop < |s| && s[stop] == s[stopAt] && IsStop(s[stop])
    requires stop + |digits| < |s| && SpellsAt(s, stop, digits, base)
    ensures var r := NumericRef(s, stop + |digits|, stopAt, base, mult, ucs);
            r.Some? && r.value % 256 == LastByte(ucs, mult, Number(digits, base))
    decreases |digits|
  {
    hide *;
    if digits == [] {
      FirstDigit(s, stop, stopAt, digits, base, mult, ucs);
    } else {
      var n := |digits| - 1;
      LastDigit(s, stop, digits, base);
      var more := Number(digits[..n], base);
      NextDigit(s, stop + n + 1, stopAt, base, mult, ucs, digits[n]);
      WrapsAway(ucs, mult, digits[n], base, more);
      DigitsRead(s, stop, stopAt, digits[..n], base, Times(mult, base), ucs + Times(mult, digits[n]));
    }
  }

  /** The other way round: what the digits were. */
  lemma {:induction false} DigitsParsed(s: string, q: nat, stopAt: nat, base: nat, mult: nat, ucs: nat)
    returns (stop: nat, digits: seq<nat>)
    requires (base == 10 || base == 16) && stopAt <= q < |s| && NumericRef(s, q, stopAt, base, mult, ucs).Some?
    ensures stopAt <= stop <= q && s[stop] == s[stopAt] && Spells(s[stop + 1..q + 1], digits, base)
    decreases q
  {
    if s[q] == s[stopAt] {
      stop, digits := q, [];
      assert s[q + 1..q + 1] == [];
    } else {
      var d := DigitValue(s[q], base).value;
      DigitSpelled(s[q], base);
      hide DigitValue;
      stop, digits := DigitsParsed(s, q - 1, stopAt, base, mult * base % UNSIGNED_RANGE, ucs + mult * d % UNSIGNED_RANGE);
      assert s[stop + 1..q + 1] == s[stop + 1..q] + [s[q]];
      digits := digits + [d];
    }
  }

  // ---------- characters ----------

  /**
   What stands for at most one character: itself, a named entity, a numeric reference, in which only the
   digits behind the last # or x count, or an ampersand that starts none of these and is dropped.
   */
  datatype Unit =
    | Plain(c: char)
    | Named(c: char)
    | Decimal(junk: string, word: string, digits: seq<nat>)
    | Hexadecimal(junk: string, word: string, digits: seq<nat>)
    | Loose

  function UnitText(u: Unit): (r: string)
    ensures r != []
  {
    match u
    case Plain(c) => [c]
    case Named(c) => if c == '&' then "&amp;" else if c == '<' then "&lt;" else if c == '>' then "&gt;"
                     else if c == '\"' then "&quot;" else "&apos;"
    case Decimal(junk, word, _) => "&#" + (junk + word + ";")
    case Hexadecimal(junk, word, _) => "&#x" + (junk + word + ";")
    case Loose => "&"
  }

  function UnitOut(u: Unit): string {
    match u
    case Plain(c) => [c]
    case Named(c) => [c]
    case Decimal(_, _, digits) => [(Number(digits, 10) % 256) as char]
    case Hexadecimal(_, _, digits) => [(Number(digits, 16) % 256) as char]
    case Loose => ""
  }

  predicate UnitOk(u: Unit, following: string) {
    match u
    case Plain(c) => c != '&'
    case Named(c) => c in "&<>\"'"
    case Decimal(junk, word, digits) =>
      Spells(word, digits, 10) && ';' !in junk && (junk == [] || junk[|junk| - 1] == '#') && (junk + word + ";")[0] != 'x'
    case Hexadecimal(junk, word, digits) =>
      Spells(word, digits, 16) && ';' !in junk && (junk == [] || junk[|junk| - 1] == 'x')
    case Loose =>
      (following == [] || following[0] != '#' || |following| == 1) && !Starts(following, "amp;") &&
      !Starts(following, "lt;") && !Starts(following, "gt;") && !Starts(following, "quot;") && !Starts(following, "apos;")
  }

  lemma {:induction false} IndexIs(s: string, c: char, k: nat)
    requires k < |s| && s[k] == c && c !in s[..k]
    ensures IndexOf(s, c) == k
  {
    if k > 0 {
      assert s[0] == s[..k][0] && s[1..][..k - 1] == s[..k][1..];
      IndexIs(s[1..], c, k - 1);
    }
  }

  lemma NoSemicolon(word: string, digits: seq<nat>, base: nat)
    requires (base == 10 || base == 16) && Spells(word, digits, base)
    ensures ';' !in word
  {
    forall i | 0 <= i < |word|
      ensures word[i] != ';'
    {
      DigitReads(word[i], digits[i], base);
    }
  }

  /** A reference from its stop character on, with junk in front of another stop character. */
  lemma ReferenceReads(s: string, stopAt: nat, base: nat, junk: string, word: string, digits: seq<nat>, rest: string)
    requires (base == 10 || base == 16) && stopAt + 1 < |s| && IsStop(s[stopAt]) && Spells(word, digits, base)
    requires ';' !in junk && (junk == [] || junk[|junk| - 1] == s[stopAt])
    requires s[stopAt + 1..] == junk + word + ";" + rest
    ensures NumericEntity(s, stopAt, base) == Got([(Number(digits, base) % 256) as char], rest)
  {
    hide *;
    NoSemicolon(word, digits, base);
    ReferenceParts(s, stopAt, junk, word, rest);
    var stop := stopAt + |junk|;
    SpelledAt(s, stop, word, digits, base);
    DigitsRead(s, stop, stopAt, digits, base, 1, 0);
    NumberFound(s, stopAt, base, |junk| + |word|);
    OneTimes(Number(digits, base));
  }

  lemma SpelledAt(s: string, stop: nat, word: string, digits: seq<nat>, base: nat)
    requires Spells(word, digits, base) && stop + |word| < |s| && s[stop + 1..stop + 1 + |word|] == word
    ensures |digits| == |word| && SpellsAt(s, stop, digits, base)
  {
  }

  lemma NumberFound(s: string, stopAt: nat, base: nat, n: nat)
    requires stopAt + n + 1 < |s| && IndexOf(s[stopAt + 1..], ';') == n
    requires NumericRef(s, stopAt + n, stopAt, base, 1, 0).Some?
    ensures NumericEntity(s, stopAt, base) ==
            Got([(NumericRef(s, stopAt + n, stopAt, base, 1, 0).value % 256) as char], s[stopAt + 1 + n + 1..])
  {
  }

  lemma OneTimes(n: nat)
    ensures LastByte(0, 1, n) == n % 256
  {
  }

  lemma ReferenceParts(s: string, stopAt: nat, junk: string, word: string, rest: string)
    requires stopAt + 1 < |s| && s[stopAt + 1..] == junk + word + ";" + rest
    requires ';' !in junk && ';' !in word && (junk == [] || junk[|junk| - 1] == s[stopAt])
    ensures IndexOf(s[stopAt + 1..], ';') == |junk| + |word| && stopAt + |junk| + |word| + 1 < |s|
    ensures s[stopAt + |junk|] == s[stopAt]
    ensures s[stopAt + |junk| + 1..stopAt + |junk| + 1 + |word|] == word
    ensures s[stopAt + 1 + (|junk| + |word|) + 1..] == rest
  {
    hide IndexOf;
    var t, n := s[stopAt + 1..], |junk| + |word|;
    assert t[..n] == junk + word && t[n] == ';' && t[|junk|..n] == word && t[n + 1..] == rest;
    IndexIs(t, ';', n);
    assert junk != [] ==> s[stopAt + |junk|] == t[|junk| - 1];
  }

  /**
   Numeric references: digits in base 10, or in base 16 with letters in either case, however many, stand
   for the character whose number is theirs modulo 256.
   */
  lemma ReferenceMeans(word: string, digits: seq<nat>, rest: string)
    ensures Spells(word, digits, 10) ==>
      GetEntity("&#" + word + ";" + rest) == Got([(Number(digits, 10) % 256) as char], rest)
    ensures Spells(word, digits, 16) ==>
      GetEntity("&#x" + word + ";" + rest) == Got([(Number(digits, 16) % 256) as char], rest)
  {
    hide Number, NumericEntity;
    var s := "&#" + word + ";" + rest;
    if Spells(word, digits, 10) {
      assert s[1] == '#' && s[2..] == "" + word + ";" + rest;
      if word != [] {
        DigitReads(word[0], digits[0], 10);
        assert s[2] == word[0];
      }
      ReferenceReads(s, 1, 10, "", word, digits, rest);
    }
    var x := "&#x" + word + ";" + rest;
    if Spells(word, digits, 16) {
      assert x[1] == '#' && x[2] == 'x' && x[3..] == "" + word + ";" + rest;
      ReferenceReads(x, 2, 16, "", word, digits, rest);
    }
  }

  lemma UnitRead(u: Unit, rest: string)
    requires UnitOk(u, rest)
    ensures GetChar(UnitText(u) + rest) == Got(UnitOut(u), rest)
  {
    match u
    case Plain(c) => assert ([c] + rest)[1..] == rest;
    case Named(c) => NamedRead(c, rest);
    case Decimal(junk, word, digits) => DecimalRead(junk, word, digits, rest);
    case Hexadecimal(junk, word, digits) => HexadecimalRead(junk, word, digits, rest);
    case Loose => LooseRead(rest);
  }

  lemma DecimalRead(junk: string, word: string, digits: seq<nat>, rest: string)
    requires UnitOk(Decimal(junk, word, digits), rest)
    ensures GetEntity("&#" + (junk + word + ";") + rest) == Got([(Number(digits, 10) % 256) as char], rest)
  {
    hide NumericEntity, Number;
    var s := "&#" + (junk + word + ";") + rest;
    assert s[1] == '#' && s[2..] == junk + word + ";" + rest;
    assert s[2] == (junk + word + ";")[0];
    ReferenceReads(s, 1, 10, junk, word, digits, rest);
  }

  lemma HexadecimalRead(junk: string, word: string, digits: seq<nat>, rest: string)
    requires UnitOk(Hexadecimal(junk, word, digits), rest)
    ensures GetEntity("&#x" + (junk + word + ";") + rest) == Got([(Number(digits, 16) % 256) as char], rest)
  {
    hide NumericEntity, Number;
    var s := "&#x" + (junk + word + ";") + rest;
    assert s[1] == '#' && s[2] == 'x' && s[3..] == junk + word + ";" + rest;
    ReferenceReads(s, 2, 16, junk, word, digits, rest);
  }

  lemma NamedRead(c: char, rest: string)
    requires c in "&<>\"'"
    ensures var s := UnitText(Named(c)) + rest; s[0] == '&' && GetEntity(s) == Got([c], rest)
  {
    hide NumericEntity;
    var code := UnitText(Named(c));
    var s := code + rest;
    CodeAndRest(code, rest);
    match c
    case '&' =>
    case '<' => assert s[1] == 'l';
    case '>' => assert s[1] == 'g';
    case '\"' => assert s[1] == 'q';
    case '\'' => assert s[1] == 'a' && s[2] == 'p';
    case _ =>
  }

  /** An entity without a number, by what follows the ampersand. */
  lemma EntityBehind(rest: string)
    requires rest == [] || rest[0] != '#' || |rest| == 1
    ensures GetEntity("&" + rest) ==
            if Starts(rest, "amp;") then Got("&", rest[4..])
            else if Starts(rest, "lt;") then Got("<", rest[3..])
            else if Starts(rest, "gt;") then Got(">", rest[3..])
            else if Starts(rest, "quot;") then Got("\"", rest[5..])
            else if Starts(rest, "apos;") then Got("'", rest[5..])
            else Got("", rest)
  {
    hide Starts;
    var s := "&" + rest;
    assert s[1..] == rest && (rest != [] ==> s[1] == rest[0]);
    EntityByTags(s);
    StartsBehind(rest, "amp;");
    StartsBehind(rest, "lt;");
    StartsBehind(rest, "gt;");
    StartsBehind(rest, "quot;");
    StartsBehind(rest, "apos;");
    assert "&" + "amp;" == "&amp;" && "&" + "lt;" == "&lt;" && "&" + "gt;" == "&gt;";
    assert "&" + "quot;" == "&quot;" && "&" + "apos;" == "&apos;";
  }

  lemma StartsBehind(rest: string, tag: string)
    ensures Starts("&" + rest, "&" + tag) <==> Starts(rest, tag)
    ensures Starts(rest, tag) ==> ("&" + rest)[|tag| + 1..] == rest[|tag|..]
  {
    assert ("&" + rest)[1..] == rest && ("&" + tag)[1..] == tag;
  }

  lemma LooseRead(rest: string)
    requires UnitOk(Loose, rest)
    ensures GetEntity("&" + rest) == Got("", rest)
  {
    EntityBehind(rest);
  }

  /** The other way round: what was read was a unit. */
  lemma UnitParsed(s: string) returns (u: Unit)
    requires s != [] && GetChar(s).Got?
    ensures s == UnitText(u) + GetChar(s).rest && UnitOut(u) == GetChar(s).out && UnitOk(u, GetChar(s).rest)
  {
    if s[0] != '&' {
      u := Plain(s[0]);
      assert s == [s[0]] + s[1..];
    } else if |s| > 2 && s[1] == '#' {
      if s[2] == 'x' {
        u := NumberParsed(s, 2, 16);
      } else {
        u := NumberParsed(s, 1, 10);
      }
    } else {
      u := NamedParsed(s);
    }
  }

  lemma NamedParsed(s: string) returns (u: Unit)
    requires s != [] && s[0] == '&' && !(|s| > 2 && s[1] == '#')
    ensures GetEntity(s).Got? && s == UnitText(u) + GetEntity(s).rest && UnitOut(u) == GetEntity(s).out
    ensures UnitOk(u, GetEntity(s).rest)
  {
    var rest := s[1..];
    assert s == "&" + rest;
    EntityBehind(rest);
    NameTexts();
    hide GetEntity, Starts, UnitText, UnitOut;
    if Starts(rest, "amp;") {
      u := TagParsed(rest, '&', "amp;");
    } else if Starts(rest, "lt;") {
      u := TagParsed(rest, '<', "lt;");
    } else if Starts(rest, "gt;") {
      u := TagParsed(rest, '>', "gt;");
    } else if Starts(rest, "quot;") {
      u := TagParsed(rest, '\"', "quot;");
    } else if Starts(rest, "apos;") {
      u := TagParsed(rest, '\'', "apos;");
    } else {
      u := Loose;
    }
  }

  lemma NameTexts()
    ensures UnitText(Named('&')) == "&" + "amp;" && UnitText(Named('<')) == "&" + "lt;"
    ensures UnitText(Named('>')) == "&" + "gt;" && UnitText(Named('\"')) == "&" + "quot;"
    ensures UnitText(Named('\'')) == "&" + "apos;" && UnitText(Loose) == "&" && UnitOut(Loose) == ""
  {
  }

  lemma TagParsed(rest: string, c: char, tag: string) returns (u: Unit)
    requires Starts(rest, tag) && c in "&<>\"'" && UnitText(Named(c)) == "&" + tag
    ensures u == Named(c) && |rest| >= |tag| && UnitOk(u, rest[|tag|..]) && UnitOut(u) == [c]
    ensures "&" + rest == UnitText(u) + rest[|tag|..]
  {
    u := Named(c);
  }

  lemma NumberParsed(s: string, stopAt: nat, base: nat) returns (u: Unit)
    requires |s| > 2 && s[0] == '&' && s[1] == '#' && stopAt + 1 < |s|
    requires (stopAt == 2 && base == 16 && s[2] == 'x') || (stopAt == 1 && base == 10 && s[2] != 'x')
    requires NumericEntity(s, stopAt, base).Got?
    ensures var r := NumericEntity(s, stopAt, base);
            s == UnitText(u) + r.rest && UnitOut(u) == r.out && UnitOk(u, r.rest)
  {
    hide NumericEntity, Spells, Number;
    var junk, word, digits, rest := DigitsBehind(s, stopAt, base);
    ReferenceReads(s, stopAt, base, junk, word, digits, rest);
    if base == 16 {
      u := Hexadecimal(junk, word, digits);
      BehindHead(s, "&#x", junk + word + ";", rest);
    } else {
      u := Decimal(junk, word, digits);
      BehindHead(s, "&#", junk + word + ";", rest);
    }
  }

  /** A text put together again from its head, its middle and the rest. */
  lemma BehindHead(s: string, head: string, middle: string, rest: string)
    requires |head| <= |s| && s[..|head|] == head && s[|head|..] == middle + rest && middle != []
    ensures s == head + middle + rest && s[|head|] == middle[0]
  {
    assert s == s[..|head|] + s[|head|..];
  }

  lemma DigitsBehind(s: string, stopAt: nat, base: nat)
    returns (junk: string, word: string, digits: seq<nat>, rest: string)
    requires (base == 10 || base == 16) && stopAt + 1 < |s| && NumericEntity(s, stopAt, base).Got?
    ensures s[stopAt + 1..] == junk + word + ";" + rest && Spells(word, digits, base)
    ensures ';' !in junk && (junk == [] || junk[|junk| - 1] == s[stopAt])
  {
    hide NumericRef, IndexOf, Spells;
    var t := s[stopAt + 1..];
    var n := IndexOf(t, ';');
    var k := stopAt + 1 + n;
    var stop, found := DigitsParsed(s, k - 1, stopAt, base, 1, 0);
    junk, word, digits, rest := s[stopAt + 1..stop + 1], s[stop + 1..k], found, s[k + 1..];
    CutAt(s, stopAt + 1, stop + 1, k);
  }

  lemma CutAt(s: string, a: nat, b: nat, k: nat)
    requires a <= b <= k < |s| && s[k] == ';' && ';' !in s[a..][..k - a]
    ensures s[a..] == s[a..b] + s[b..k] + ";" + s[k + 1..]
    ensures ';' !in s[a..b] && (a < b ==> s[a..b][b - a - 1] == s[b - 1])
  {
    assert s[a..b] == s[a..][..k - a][..b - a];
  }

  // ---------- runs of characters ----------

  function UnitsText(us: seq<Unit>): string {
    if us == [] then [] else UnitText(us[0]) + UnitsText(us[1..])
  }

  function UnitsOut(us: seq<Unit>): string {
    if us == [] then [] else UnitOut(us[0]) + UnitsOut(us[1..])
  }

  /** Each of them is what it seems in front of those behind it and the text that follows. */
  predicate UnitsOk(us: seq<Unit>, following: string) {
    us == [] || (UnitOk(us[0], UnitsText(us[1..]) + following) && UnitsOk(us[1..], following))
  }

  lemma OneMore(u: Unit, us: seq<Unit>)
    ensures var all := [u] + us; all != [] && all[0] == u && all[1..] == us
    ensures UnitsText([u] + us) == UnitText(u) + UnitsText(us) && UnitsOut([u] + us) == UnitOut(u) + UnitsOut(us)
    ensures forall f :: UnitsOk([u] + us, f) <==> UnitOk(u, UnitsText(us) + f) && UnitsOk(us, f)
  {
    assert ([u] + us)[1..] == us;
  }

  lemma Associative(a: string, b: string, c: string)
    ensures a + (b + c) == (a + b) + c
  {
  }

  /** What comes behind a quote or the start of a tag does not matter. */
  lemma UnitFar(u: Unit, f: string, c: char, x: string)
    requires EndsText(c) && c in f
    ensures UnitOk(u, f) <==> UnitOk(u, f + x)
  {
    hide Starts;
    StartsStable(f, x, "amp;", c);
    StartsStable(f, x, "lt;", c);
    StartsStable(f, x, "gt;", c);
    StartsStable(f, x, "quot;", c);
    StartsStable(f, x, "apos;", c);
    assert |f| == 1 ==> f[0] == c;
  }

  lemma {:induction false} UnitsFar(us: seq<Unit>, f: string, c: char, x: string)
    requires EndsText(c) && c in f
    ensures UnitsOk(us, f) <==> UnitsOk(us, f + x)
  {
    hide UnitOk, UnitText;
    if us != [] {
      var t := UnitsText(us[1..]);
      UnitFar(us[0], t + f, c, x);
      Associative(t, f, x);
      UnitsFar(us[1..], f, c, x);
    }
  }

  lemma UnitHead(u: Unit, rest: string)
    ensures var s := UnitText(u) + rest; s != [] && s[0] == if u.Plain? then u.c else '&'
  {
  }

  // ---------- white space kept ----------

  lemma {:induction false} KeepRead(us: seq<Unit>, c: char, tail: string)
    requires EndsText(c) && [c] <= tail && Plain(c) !in us && UnitsOk(us, tail)
    ensures KeepText(UnitsText(us) + tail, [c]) == Some((UnitsOut(us), tail))
  {
    if us == [] {
      assert UnitsText(us) + tail == tail;
    } else {
      var u, more := us[0], UnitsText(us[1..]);
      var rest := more + tail;
      KeepRead(us[1..], c, tail);
      UnitRead(u, rest);
      UnitHead(u, rest);
      Associative(UnitText(u), more, tail);
      hide GetChar, UnitText, UnitOk, UnitOut;
      assert us[0] in us;
      KeepCharacter(UnitText(u) + rest, [c]);
    }
  }

  lemma {:induction false} KeepParsed(s: string, c: char) returns (us: seq<Unit>)
    requires EndsText(c) && KeepText(s, [c]).Some? && KeepText(s, [c]).value.1 != []
    ensures s == UnitsText(us) + KeepText(s, [c]).value.1 && Plain(c) !in us && UnitsOk(us, KeepText(s, [c]).value.1)
    decreases |s|
  {
    hide GetChar;
    if [c] <= s {
      us := [];
    } else {
      var u := UnitParsed(s);
      var rest, q := GetChar(s).rest, KeepText(s, [c]).value.1;
      var more := KeepParsed(rest, c);
      us := [u] + more;
      OneMore(u, more);
      Associative(UnitText(u), UnitsText(more), q);
      UnitHead(u, rest);
    }
  }

  // ---------- white space condensed ----------

  /** A text as words of characters with white space between them and behind the last one. */
  datatype WordsSource =
    | Last(us: seq<Unit>, gap: string)
    | More(us: seq<Unit>, gap: string, rest: WordsSource)

  function WordsText(ws: WordsSource): string {
    match ws
    case Last(us, gap) => UnitsText(us) + gap
    case More(us, gap, rest) => UnitsText(us) + (gap + WordsText(rest))
  }

  /** The words with one blank between each two. */
  function WordsOut(ws: WordsSource): string {
    match ws
    case Last(us, _) => UnitsOut(us)
    case More(us, _, rest) => UnitsOut(us) + (" " + WordsOut(rest))
  }

  /** A word ends at white space and at a tag, unless they are written as references. */
  predicate InWord(us: seq<Unit>) {
    us != [] && forall i :: 0 <= i < |us| && us[i].Plain? ==> us[i].c != '<' && !IsWhiteSpace(us[i].c)
  }

  predicate WordsOk(ws: WordsSource, following: string) {
    match ws
    case Last(us, gap) => InWord(us) && AllWhiteSpace(gap) && UnitsOk(us, gap + following)
    case More(us, gap, rest) =>
      InWord(us) && AllWhiteSpace(gap) && gap != [] && UnitsOk(us, gap + WordsText(rest) + following) &&
      WordsOk(rest, following)
  }

  /** What is pending is one blank. */
  function Pending(pending: bool): string {
    if pending then " " else ""
  }

  lemma CondenseUnit(u: Unit, rest: string, pending: bool)
    requires UnitOk(u, rest) && InWord([u]) && CondenseText(rest, "<", false).Some?
    ensures var r := CondenseText(rest, "<", false).value;
            CondenseText(UnitText(u) + rest, "<", pending) == Some((Pending(pending) + UnitOut(u) + r.0, r.1))
  {
    UnitRead(u, rest);
    UnitHead(u, rest);
    assert [u][0] == u;
    hide GetChar, UnitText, UnitOk, UnitOut;
    CondenseStep(UnitText(u) + rest, pending);
  }

  lemma {:induction false} CondenseUnits(us: seq<Unit>, tail: string, pending: bool)
    requires InWord(us) && UnitsOk(us, tail) && CondenseText(tail, "<", false).Some?
    ensures var r := CondenseText(tail, "<", false).value;
            CondenseText(UnitsText(us) + tail, "<", pending) == Some((Pending(pending) + (UnitsOut(us) + r.0), r.1))
  {
    var u, more := us[0], us[1..];
    var r := CondenseText(tail, "<", false).value;
    assert us == [u] + more && InWord([u]) && (more != [] ==> InWord(more));
    OneMore(u, more);
    hide CondenseText, UnitText, UnitOk, UnitOut, InWord, UnitsText, UnitsOut;
    if more == [] {
      NoUnits();
      assert UnitsText(more) + tail == tail;
      CondenseUnit(u, tail, pending);
    } else {
      CondenseUnits(more, tail, false);
      CondenseUnit(u, UnitsText(more) + tail, pending);
    }
    Associative(UnitText(u), UnitsText(more), tail);
    Joined(Pending(pending), UnitOut(u), UnitsOut(more), r.0);
  }

  lemma NoUnits()
    ensures UnitsText([]) == "" && UnitsOut([]) == ""
  {
  }

  lemma Joined(a: string, b: string, c: string, d: string)
    ensures a + b + (c + d) == a + ((b + c) + d) && a + b + ("" + (c + d)) == a + ((b + c) + d)
    ensures a + b + d == a + ((b + "") + d)
  {
  }

  lemma {:induction false} CondenseGap(w: string, tail: string, pending: bool)
    requires AllWhiteSpace(w) && w != []
    ensures CondenseText(w + tail, "<", pending) == CondenseText(tail, "<", true)
  {
    assert (w + tail)[1..] == w[1..] + tail;
    if |w| == 1 {
      assert w[1..] + tail == tail;
    } else {
      CondenseGap(w[1..], tail, true);
    }
  }

  lemma {:induction false} WordsRead(ws: WordsSource, tail: string, pending: bool)
    requires WordsOk(ws, tail) && "<" <= tail
    ensures CondenseText(WordsText(ws) + tail, "<", pending) == Some((Pending(pending) + WordsOut(ws), tail))
  {
    hide CondenseText, UnitsText, UnitsOut, UnitsOk, InWord, AllWhiteSpace;
    match ws
    case Last(us, gap) =>
      CondenseBlanks(gap, tail, false);
      CondenseUnits(us, gap + tail, pending);
      Associative(UnitsText(us), gap, tail);
      assert UnitsOut(us) + "" == UnitsOut(us);
    case More(us, gap, rest) =>
      WordsRead(rest, tail, true);
      CondenseGap(gap, WordsText(rest) + tail, false);
      Associative(gap, WordsText(rest), tail);
      CondenseUnits(us, gap + WordsText(rest) + tail, pending);
      Associative(UnitsText(us), gap + WordsText(rest), tail);
  }

  lemma WordsHead(ws: WordsSource, tail: string)
    requires WordsOk(ws, tail)
    ensures var s := WordsText(ws) + tail; s != [] && s[0] != '<' && !IsWhiteSpace(s[0])
  {
    hide UnitText, UnitsOk;
    UnitHead(ws.us[0], []);
    var code := UnitText(ws.us[0]);
    assert code + [] == code;
    assert UnitsText(ws.us)[0] == code[0];
  }

  /** One character more in front of the first word. */
  function Longer(u: Unit, ws: WordsSource): WordsSource {
    match ws
    case Last(us, gap) => Last([u] + us, gap)
    case More(us, gap, rest) => More([u] + us, gap, rest)
  }

  lemma LongerWords(u: Unit, ws: WordsSource, tail: string)
    requires UnitOk(u, WordsText(ws) + tail) && InWord([u]) && WordsOk(ws, tail)
    ensures WordsOk(Longer(u, ws), tail) && WordsText(Longer(u, ws)) == UnitText(u) + WordsText(ws)
  {
    hide UnitOk, UnitText, UnitsText, UnitsOk, AllWhiteSpace;
    assert [u][0] == u;
    OneMore(u, ws.us);
    match ws
    case Last(us, gap) =>
      Associative(UnitsText(us), gap, tail);
      Associative(UnitText(u), UnitsText(us), gap);
    case More(us, gap, rest) =>
      Associative(UnitsText(us), gap + WordsText(rest), tail);
      Associative(UnitText(u), UnitsText(us), gap + WordsText(rest));
  }

  /** The first character of a word, the white space behind it, and what is still to be read. */
  lemma FirstUnit(s: string, pending: bool) returns (u: Unit, gap: string, tail: string)
    requires s != [] && s[0] != '<' && !IsWhiteSpace(s[0]) && CondenseText(s, "<", pending).Some?
    ensures s == UnitText(u) + (gap + tail) && UnitOk(u, gap + tail) && InWord([u]) && AllWhiteSpace(gap)
    ensures |tail| < |s| && (tail == [] || !IsWhiteSpace(tail[0])) && CondenseText(tail, "<", gap != []).Some?
    ensures CondenseText(tail, "<", gap != []).value.1 == CondenseText(s, "<", pending).value.1
  {
    hide *;
    CondenseFirst(s, pending);
    var rest;
    u, rest := UnitInWord(s);
    gap, tail := WhiteInFront(rest);
    SkipCondensed(gap, tail);
  }

  lemma UnitInWord(s: string) returns (u: Unit, rest: string)
    requires s != [] && s[0] != '<' && !IsWhiteSpace(s[0]) && GetChar(s).Got?
    ensures rest == GetChar(s).rest && s == UnitText(u) + rest && UnitOk(u, rest) && InWord([u])
  {
    hide GetChar, UnitOk, UnitText, IsWhiteSpace;
    u := UnitParsed(s);
    rest := GetChar(s).rest;
    UnitHead(u, rest);
    assert [u][0] == u;
  }

  lemma CondenseFirst(s: string, pending: bool)
    requires s != [] && s[0] != '<' && !IsWhiteSpace(s[0]) && CondenseText(s, "<", pending).Some?
    ensures GetChar(s).Got? && |GetChar(s).rest| < |s| && CondenseText(GetChar(s).rest, "<", false).Some?
    ensures CondenseText(GetChar(s).rest, "<", false).value.1 == CondenseText(s, "<", pending).value.1
  {
    CondenseStep(s, pending);
  }

  lemma WhiteInFront(s: string) returns (gap: string, tail: string)
    ensures s == gap + tail && AllWhiteSpace(gap) && (tail == [] || !IsWhiteSpace(tail[0]))
  {
    hide *;
    tail := SkipWhiteSpace(s);
    var n := |s| - |tail|;
    gap := s[..n];
    SkippedIsWhite(s);
    assert s == s[..n] + s[n..];
  }

  lemma {:induction false} WordsParsed(s: string, pending: bool) returns (ws: WordsSource)
    requires s != [] && s[0] != '<' && !IsWhiteSpace(s[0])
    requires CondenseText(s, "<", pending).Some? && CondenseText(s, "<", pending).value.1 != []
    ensures var q := CondenseText(s, "<", pending).value.1;
            s == WordsText(ws) + q && WordsOk(ws, q)
    decreases |s|
  {
    hide *;
    var q := CondenseText(s, "<", pending).value.1;
    var u, gap, tail := FirstUnit(s, pending);
    if tail == [] || tail[0] == '<' {
      AtTag(tail, gap != []);
      ws := Last([u], gap);
      OneWord(u, gap, q);
    } else if gap == [] {
      var more := WordsParsed(tail, false);
      ws := Longer(u, more);
      assert gap + tail == WordsText(more) + q;
      LongerWords(u, more, q);
      Associative(UnitText(u), WordsText(more), q);
    } else {
      var more := WordsParsed(tail, true);
      ws := More([u], gap, more);
      OneMoreWord(u, gap, more, q);
    }
  }

  lemma SkipCondensed(gap: string, tail: string)
    requires AllWhiteSpace(gap)
    ensures CondenseText(gap + tail, "<", false) == CondenseText(tail, "<", gap != [])
  {
    if gap == [] {
      assert gap + tail == tail;
    } else {
      CondenseGap(gap, tail, false);
    }
  }

  lemma AtTag(tail: string, pending: bool)
    requires tail == [] || tail[0] == '<'
    ensures CondenseText(tail, "<", pending) == Some(("", tail))
  {
  }

  lemma OneWord(u: Unit, gap: string, q: string)
    requires UnitOk(u, gap + q) && InWord([u]) && AllWhiteSpace(gap)
    ensures WordsOk(Last([u], gap), q) && UnitText(u) + (gap + q) == WordsText(Last([u], gap)) + q
  {
    hide UnitOk, UnitText, UnitsText, InWord, AllWhiteSpace;
    OneMore(u, []);
    NoUnits();
    assert UnitText(u) + "" == UnitText(u) && "" + (gap + q) == gap + q && [u] + [] == [u];
    Associative(UnitText(u), gap, q);
  }

  lemma OneMoreWord(u: Unit, gap: string, more: WordsSource, q: string)
    requires UnitOk(u, gap + (WordsText(more) + q)) && InWord([u]) && AllWhiteSpace(gap) && gap != [] && WordsOk(more, q)
    ensures WordsOk(More([u], gap, more), q)
    ensures UnitText(u) + (gap + (WordsText(more) + q)) == WordsText(More([u], gap, more)) + q
  {
    hide UnitOk, UnitText, UnitsText, InWord, AllWhiteSpace;
    OneMore(u, []);
    NoUnits();
    var t := gap + WordsText(more) + q;
    Associative(gap, WordsText(more), q);
    assert UnitText(u) + "" == UnitText(u) && "" + t == t && [u] + [] == [u];
    Associative(UnitText(u), gap + WordsText(more), q);
  }

  lemma {:induction false} WordsFar(ws: WordsSource, f: string, x: string)
    requires '<' in f
    ensures WordsOk(ws, f) <==> WordsOk(ws, f + x)
  {
    hide UnitsOk, UnitsText;
    match ws
    case Last(us, gap) =>
      UnitsFar(us, gap + f, '<', x);
      Associative(gap, f, x);
    case More(us, gap, rest) =>
      UnitsFar(us, gap + WordsText(rest) + f, '<', x);
      Associative(gap + WordsText(rest), f, x);
      WordsFar(rest, f, x);
  }

  // ---------- attributes ----------

  /** A value between quotes, or a word without quotes that is taken as it is. */
  datatype ValueSource = Quoted(quote: char, us: seq<Unit>) | Bare(word: string)

  function ValueText(v: ValueSource): string {
    match v
    case Quoted(quote, us) => [quote] + (UnitsText(us) + [quote])
    case Bare(word) => word
  }

  function ValueOut(v: ValueSource): string {
    match v
    case Quoted(_, us) => UnitsOut(us)
    case Bare(word) => word
  }

  predicate ValueOk(v: ValueSource, following: string) {
    match v
    case Quoted(quote, us) => quote in "'\"" && Plain(quote) !in us && UnitsOk(us, [quote])
    case Bare(word) =>
      following != [] && Stop(following[0]) && (word == [] ==> !IsWhiteSpace(following[0])) &&
      forall i :: 0 <= i < |word| ==> !Stop(word[i]) && word[i] != '\'' && word[i] != '\"'
  }

  lemma {:induction false} BareRead(word: string, following: string)
    requires forall i :: 0 <= i < |word| ==> !Stop(word[i])
    requires following != [] && Stop(following[0])
    ensures UnquotedLength(word + following) == |word|
  {
    if word == [] {
      assert word + following == following;
    } else {
      assert (word + following)[1..] == word[1..] + following;
      BareRead(word[1..], following);
    }
  }

  lemma ValueRead(v: ValueSource, following: string)
    requires ValueOk(v, following) && following != []
    ensures var s := ValueText(v) + following;
            s != [] && !IsWhiteSpace(s[0]) && ParseAttrValue(s) == Some((ValueOut(v), following))
  {
    match v
    case Quoted(quote, us) => QuotedRead(quote, us, following);
    case Bare(word) =>
      BareRead(word, following);
      var s := word + following;
      assert s[..|word|] == word && s[|word|..] == following;
      assert s[0] == if word == [] then following[0] else word[0];
  }

  lemma QuotedRead(quote: char, us: seq<Unit>, following: string)
    requires quote in "'\"" && Plain(quote) !in us && UnitsOk(us, [quote]) && following != []
    ensures var s := [quote] + (UnitsText(us) + [quote]) + following;
            s[0] == quote && ParseAttrValue(s) == Some((UnitsOut(us), following))
  {
    hide KeepText, UnitsOk, UnitsText, UnitsOut;
    var tail := [quote] + following;
    UnitsFar(us, [quote], quote, following);
    KeepRead(us, quote, tail);
    var s := [quote] + (UnitsText(us) + [quote]) + following;
    assert s[1..] == UnitsText(us) + tail;
    assert tail[1..] == following && |tail| > 1;
    assert [quote] == if quote == '\'' then "'" else "\"";
  }

  lemma ValueParsed(s: string) returns (v: ValueSource)
    requires s != [] && !IsWhiteSpace(s[0]) && ParseAttrValue(s).Some? && ParseAttrValue(s).value.1 != []
    ensures s == ValueText(v) + ParseAttrValue(s).value.1 && ValueOk(v, ParseAttrValue(s).value.1)
  {
    if s[0] == '\'' || s[0] == '\"' {
      v := QuotedParsed(s);
    } else {
      var n := UnquotedLength(s);
      UnquotedStops(s);
      v := Bare(s[..n]);
      assert s == s[..n] + s[n..];
      forall i | 0 <= i < n
        ensures s[..n][i] != '\'' && s[..n][i] != '\"'
      {
        assert s[..n][i] in s[..n];
      }
    }
  }

  lemma QuotedParsed(s: string) returns (v: ValueSource)
    requires s != [] && s[0] in "'\"" && ParseAttrValue(s).Some? && ParseAttrValue(s).value.1 != []
    ensures s == ValueText(v) + ParseAttrValue(s).value.1 && ValueOk(v, ParseAttrValue(s).value.1)
  {
    hide KeepText, UnitsOk, UnitsText;
    var c := s[0];
    assert [c] == if c == '\'' then "'" else "\"";
    var q := KeepText(s[1..], [c]).value.1;
    var us := KeepParsed(s[1..], c);
    assert q == [c] + q[1..];
    UnitsFar(us, [c], c, q[1..]);
    v := Quoted(c, us);
    assert s == [c] + s[1..];
  }
}
