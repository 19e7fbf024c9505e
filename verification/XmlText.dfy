/** TinyXML's character level: white space, names, entities, ReadText and EncodeString. */
module XmlText {
  // A cursor into the NUL-terminated buffer is the string that is left to read; the empty string is the cursor
  // at the terminator.  The encoding is TIXML_ENCODING_UNKNOWN, so one char is one byte.

  import opened Wrappers

  // ---------- character classes ----------

  predicate IsWhiteSpace(c: char) {
    c == ' ' || 9 <= c as int <= 13
  }

  predicate IsAlpha(c: char) {
    127 <= c as int || 'a' <= c <= 'z' || 'A' <= c <= 'Z'
  }

  predicate IsNameStart(c: char) {
    IsAlpha(c) || c == '_'
  }

  predicate IsNameChar(c: char) {
    IsAlpha(c) || '0' <= c <= '9' || c == '_' || c == '-' || c == '.' || c == ':'
  }

  predicate AllWhiteSpace(s: string) {
    forall i :: 0 <= i < |s| ==> IsWhiteSpace(s[i])
  }

  /** The classes by the codes of the characters: bytes beyond ASCII count as letters. */
  lemma CharacterClasses(c: char)
    ensures var code := c as int;
            (IsWhiteSpace(c) <==> 9 <= code < 14 || code == 32) &&
            (IsNameStart(c) <==> 65 <= code < 91 || code == 95 || 97 <= code < 123 || 127 <= code) &&
            (IsNameChar(c) <==> IsNameStart(c) || 48 <= code < 59 || code == 45 || code == 46)
  {
  }

  /** The bytes a C string function sees: everything before the first NUL. */
  function CStr(s: string): (r: string)
    ensures '\0' !in r
    ensures '\0' !in s <==> r == s
  {
    if s == [] || s[0] == '\0' then [] else [s[0]] + CStr(s[1..])
  }

  function SkipWhiteSpace(s: string): (r: string)
    ensures |r| <= |s| && r == s[|s| - |r|..]
    ensures r != [] ==> !IsWhiteSpace(r[0])
  {
    if s == [] || !IsWhiteSpace(s[0]) then s else SkipWhiteSpace(s[1..])
  }

  function NameLength(s: string): (n: nat)
    ensures n <= |s| && forall i :: 0 <= i < n ==> IsNameChar(s[i])
    ensures n < |s| ==> !IsNameChar(s[n])
  {
    if s == [] || !IsNameChar(s[0]) then 0 else 1 + NameLength(s[1..])
  }

  /** The name read and the cursor after it. */
  function ReadName(s: string): (r: Option<(string, string)>)
    ensures r.Some? ==> ValidName(r.value.0) && |r.value.0| + |r.value.1| == |s|
  {
    if s == [] || !IsNameStart(s[0]) then None
    else Some((s[..NameLength(s)], s[NameLength(s)..]))
  }

  predicate ValidName(n: string) {
    n != [] && IsNameStart(n[0]) && forall i :: 0 <= i < |n| ==> IsNameChar(n[i])
  }

  // ---------- entities ----------

  /** GetChar either fails with a null cursor or moves on and yields zero or one character. */
  datatype CharRead = Null | Got(out: string, rest: string)

  /** Where strchr finds c, or the length of s. */
  function IndexOf(s: string, c: char): (k: nat)
    ensures k <= |s| && c !in s[..k]
    ensures k < |s| ==> s[k] == c
  {
    if s == [] || s[0] == c then 0 else 1 + IndexOf(s[1..], c)
  }

  function DigitValue(c: char, base: nat): Option<nat> {
    if '0' <= c <= '9' then Some(c as int - '0' as int)
    else if base == 16 && 'a' <= c <= 'f' then Some(c as int - 'a' as int + 10)
    else if base == 16 && 'A' <= c <= 'F' then Some(c as int - 'A' as int + 10)
    else None
  }

  const UNSIGNED_RANGE: nat := 0x1_0000_0000

  /** Adds up digits from position q leftwards until the stop character; mult is a 32-bit unsigned. */
  function NumericRef(s: string, q: nat, stopAt: nat, base: nat, mult: nat, ucs: nat): Option<nat>
    requires stopAt <= q < |s|
  {
    if s[q] == s[stopAt] then Some(ucs)
    else match DigitValue(s[q], base)
      case None => None
      case Some(d) =>
        NumericRef(s, q - 1, stopAt, base, mult * base % UNSIGNED_RANGE, ucs + mult * d % UNSIGNED_RANGE)
  }

  function NumericEntity(s: string, stopAt: nat, base: nat): (r: CharRead)
    requires stopAt + 1 < |s|
    ensures r.Got? ==> |r.out| == 1 && |r.rest| < |s| && r.rest == s[|s| - |r.rest|..]
  {
    var k := stopAt + 1 + IndexOf(s[stopAt + 1..], ';');
    if k == |s| then Null
    else match NumericRef(s, k - 1, stopAt, base, 1, 0)
      case None => Null
      case Some(ucs) => Got([(ucs % 256) as char], s[k + 1..])
  }

  function GetEntity(s: string): (r: CharRead)
    requires |s| > 0 && s[0] == '&'
    ensures r.Got? ==> |r.out| <= 1 && |r.rest| < |s| && r.rest == s[|s| - |r.rest|..]
  {
    if |s| > 2 && s[1] == '#' then
      if s[2] == 'x' then (if |s| == 3 then Null else NumericEntity(s, 2, 16))
      else NumericEntity(s, 1, 10)
    else if "&amp;" <= s then Got("&", s[5..])
    else if "&lt;" <= s then Got("<", s[4..])
    else if "&gt;" <= s then Got(">", s[4..])
    else if "&quot;" <= s then Got("\"", s[6..])
    else if "&apos;" <= s then Got("'", s[6..])
    else Got("", s[1..])
  }

  function GetChar(s: string): (r: CharRead)
    requires s != []
    ensures r.Got? ==> |r.out| <= 1 && |r.rest| < |s| && r.rest == s[|s| - |r.rest|..]
  {
    if s[0] == '&' then GetEntity(s) else Got([s[0]], s[1..])
  }

  // ---------- ReadText ----------

  /** ReadText's loop that keeps white space: the text and the cursor at the end tag, if one is met. */
  function KeepText(s: string, end: string): (r: Option<(string, string)>)
    decreases |s|
    ensures r.Some? ==> |r.value.1| <= |s| && (r.value.1 == [] || end <= r.value.1)
  {
    if s == [] || end <= s then Some(("", s))
    else match GetChar(s)
      case Null => None
      case Got(out, rest) =>
        match KeepText(rest, end)
        case None => None
        case Some((text, q)) => Some((out + text, q))
  }

  /** ReadText's loop that turns each run of white space into one blank before the next character. */
  function CondenseText(s: string, end: string, pending: bool): (r: Option<(string, string)>)
    decreases |s|
    ensures r.Some? ==> |r.value.1| <= |s| && (r.value.1 == [] || end <= r.value.1)
    ensures r.Some? && s != [] && !(end <= s) ==> |r.value.1| < |s|
  {
    if s == [] || end <= s then Some(("", s))
    else if IsWhiteSpace(s[0]) then CondenseText(s[1..], end, true)
    else match GetChar(s)
      case Null => None
      case Got(out, rest) =>
        match CondenseText(rest, end, false)
        case None => None
        case Some((text, q)) => Some(((if pending then " " else "") + out + text, q))
  }

  /** The text and the cursor past the end tag; None is the null pointer. */
  function ReadText(s: string, trim: bool, end: string): (r: Option<(string, string)>)
    ensures r.Some? ==> r.value.1 != [] && |r.value.1| + |end| <= |s|
    ensures r.Some? && trim && s != [] && !IsWhiteSpace(s[0]) && !(end <= s) ==> |r.value.1| + |end| < |s|
  {
    match if trim then CondenseText(SkipWhiteSpace(s), end, false) else KeepText(s, end)
    case None => None
    case Some((text, q)) => if |q| <= |end| then None else Some((text, q[|end|..]))
  }

  predicate Blank(s: string) {
    AllWhiteSpace(s)
  }

  // ---------- EncodeString ----------

  /** printf's %X for one digit. */
  function HexDigit(n: nat): char
    requires n < 16
  {
    if n < 10 then (n + 48) as char else (n + 55) as char
  }

  function EncodeChar(c: char): (r: string)
    ensures |r| > 0
  {
    if c == '&' then "&amp;"
    else if c == '<' then "&lt;"
    else if c == '>' then "&gt;"
    else if c == '\"' then "&quot;"
    else if c == '\'' then "&apos;"
    else if c as int < 32 then "&#x" + [HexDigit(c as int / 16), HexDigit(c as int % 16)] + ";"
    else [c]
  }

  /** The five named entities, a control character in two hexadecimal digits, and all else as it is. */
  lemma EscapesWritten(c: char)
    ensures EncodeChar('&') == "&amp;" && EncodeChar('<') == "&lt;" && EncodeChar('>') == "&gt;"
    ensures EncodeChar('\"') == "&quot;" && EncodeChar('\'') == "&apos;" && EncodeChar('\n') == "&#x0A;"
    ensures EncodeChar(c) == [c] <==> ' ' <= c && c !in "&<>\"'"
  {
  }

  function Encode(s: string): string
    decreases |s|, 1
  {
    if s == [] then []
    else if "&#x" <= s then PassThrough(s)
    else EncodeChar(s[0]) + Encode(s[1..])
  }

  /** A hexadecimal reference is copied as it is up to its ';' or to the last character of the string. */
  function PassThrough(s: string): (r: string)
    requires |s| >= 2
    ensures r != [] && r[0] == s[0]
    decreases |s|, 0
  {
    [s[0]] + if s[1] == ';' || |s| == 2 then Encode(s[1..]) else PassThrough(s[1..])
  }

  /** The tag occurs nowhere in s. */
  predicate Avoids(s: string, tag: string) {
    s == [] || (!(tag <= s) && Avoids(s[1..], tag))
  }

  lemma {:induction false} AvoidsMeans(s: string, tag: string)
    requires tag != []
    ensures Avoids(s, tag) <==> forall k :: 0 <= k <= |s| ==> !(tag <= s[k..])
  {
    if s != [] {
      AvoidsMeans(s[1..], tag);
      forall k | 0 < k <= |s|
        ensures s[k..] == s[1..][k - 1..]
      {
      }
      assert s[0..] == s;
    }
  }

  /** No hexadecimal character reference starts anywhere in s. */
  predicate NoHexRef(s: string) {
    Avoids(s, "&#x")
  }
}
