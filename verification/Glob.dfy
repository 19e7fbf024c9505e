/** match_prefix: matches a pattern against a prefix of a string; -1 means that nothing matches. */
module Glob {
  // '?' stands for any character, '*' for characters other than '/', '**' for any characters, '$' for the
  // end of the string, and '|' separates alternatives.

  /** The length of the longest prefix without c: strcspn(s, "c"). */
  function Span(s: string, c: char): (n: nat)
    ensures n <= |s| && c !in s[..n] && (n < |s| ==> s[n] == c)
  {
    if s == [] || s[0] == c then 0 else 1 + Span(s[1..], c)
  }

  // ---------- what a match is ----------

  /**
   The first n characters of s match a pattern without '|' when its stars take, one after the other,
   the numbers of characters in stars.
   */
  predicate MatchesWith(p: string, s: string, n: int, stars: seq<nat>)
    decreases |p|
  {
    if p == [] then n == 0 && stars == []
    else if p[0] == '$' then s == [] && n == 0 && stars == []
    else if p[0] == '*' && |p| > 1 && p[1] == '*' then
      stars != [] && stars[0] <= |s| && MatchesWith(p[2..], s[stars[0]..], n - stars[0], stars[1..])
    else if p[0] == '*' then
      stars != [] && stars[0] <= |s| && '/' !in s[..stars[0]] &&
      MatchesWith(p[1..], s[stars[0]..], n - stars[0], stars[1..])
    else s != [] && (p[0] == '?' || p[0] == s[0]) && MatchesWith(p[1..], s[1..], n - 1, stars)
  }

  ghost predicate Matches(p: string, s: string, n: int) {
    exists stars: seq<nat> :: MatchesWith(p, s, n, stars)
  }

  /** Lexicographic order on choices for the stars. */
  predicate NotAfter(a: seq<nat>, b: seq<nat>) {
    a == [] || (b != [] && (a[0] < b[0] || (a[0] == b[0] && NotAfter(a[1..], b[1..]))))
  }

  /** A match in which no star could take more characters, the stars further left given as they are. */
  ghost predicate Greediest(p: string, s: string, n: int) {
    exists stars: seq<nat> :: MatchesWith(p, s, n, stars) && LastChoice(p, s, stars)
  }

  ghost predicate LastChoice(p: string, s: string, stars: seq<nat>) {
    forall n: int, other: seq<nat> :: MatchesWith(p, s, n, other) ==> NotAfter(other, stars)
  }

  // ---------- what match_prefix computes ----------

  predicate DoubleStar(p: string) {
    |p| > 1 && p[0] == '*' && p[1] == '*'
  }

  function AfterStar(p: string): string
    requires p != [] && p[0] == '*'
  {
    if DoubleStar(p) then p[2..] else p[1..]
  }

  /** How many characters the star at the head of the pattern may take at most. */
  function Reach(p: string, s: string): (n: nat)
    ensures n <= |s|
  {
    if DoubleStar(p) then |s| else Span(s, '/')
  }

  function Plus(n: nat, r: int): int {
    if r == -1 then -1 else n + r
  }

  /** A pattern without '|'. */
  function MatchOne(p: string, s: string): (r: int)
    ensures -1 <= r <= |s|
    decreases |p|, 0
  {
    if p == [] then 0
    else if p[0] == '?' && s != [] then Plus(1, MatchOne(p[1..], s[1..]))
    else if p[0] == '$' then (if s == [] then 0 else -1)
    else if p[0] == '*' then MatchStar(AfterStar(p), s, Reach(p, s))
    else if s == [] || p[0] != s[0] then -1
    else Plus(1, MatchOne(p[1..], s[1..]))
  }

  /** A star that takes len characters, or fewer where the rest of the pattern needs it. */
  function MatchStar(rest: string, s: string, len: nat): (r: int)
    requires len <= |s|
    ensures -1 <= r <= |s|
    decreases |rest|, 1, len
  {
    var r := MatchOne(rest, s[len..]);
    if r != -1 then len + r else if len == 0 then -1 else MatchStar(rest, s, len - 1)
  }

  /** Any pattern. */
  function Match(p: string, s: string): (r: int)
    decreases |p|
  {
    var bar := Span(p, '|');
    if bar == |p| then MatchOne(p, s)
    else if MatchOne(p[..bar], s) > 0 then MatchOne(p[..bar], s)
    else Match(p[bar + 1..], s)
  }

  // ---------- match_prefix ----------

  method MatchPrefix(pattern: string, str: string) returns (res: int)
    requires '\0' !in pattern && '\0' !in str
    ensures res == Match(pattern, str)
    decreases |pattern|, 2
  {
    var orStr := 0;
    while orStr < |pattern| && pattern[orStr] != '|'
      invariant orStr <= |pattern| && '|' !in pattern[..orStr]
      invariant Span(pattern, '|') == orStr + Span(pattern[orStr..], '|')
    {
      orStr := orStr + 1;
    }
    if orStr < |pattern| {
      res := MatchPrefix(pattern[..orStr], str);
      NoBar(pattern[..orStr], str);
      if res <= 0 {
        res := MatchPrefix(pattern[orStr + 1..], str);
      }
      return;
    }
    res := MatchAlternative(pattern, str);
  }

  /** The loop over a pattern without '|'. */
  method MatchAlternative(pattern: string, str: string) returns (res: int)
    requires '\0' !in pattern && '\0' !in str && '|' !in pattern
    ensures res == MatchOne(pattern, str)
    decreases |pattern|, 1
  {
    var i, j := 0, 0;
    while i < |pattern|
      invariant i <= |pattern| && j <= |str|
      invariant MatchOne(pattern, str) == Plus(j, MatchOne(pattern[i..], str[j..]))
    {
      hide MatchOne;
      MatchOneUnfold(pattern, str, i, j);
      if pattern[i] == '?' && j < |str| {
      } else if pattern[i] == '$' {
        return if j == |str| then j else -1;
      } else if pattern[i] == '*' {
        res := MatchFromStar(pattern, i, str, j);
        return;
      } else if j == |str| || pattern[i] != str[j] {
        return -1;
      }
      i, j := i + 1, j + 1;
    }
    return j;
  }

  lemma MatchOneUnfold(p: string, s: string, i: nat, j: nat)
    requires i < |p| && j <= |s|
    ensures MatchOne(p[i..], s[j..]) ==
            if p[i] == '?' && j < |s| then Plus(1, MatchOne(p[i + 1..], s[j + 1..]))
            else if p[i] == '$' then (if j == |s| then 0 else -1)
            else if p[i] == '*' then MatchStar(AfterStar(p[i..]), s[j..], Reach(p[i..], s[j..]))
            else if j == |s| || p[i] != s[j] then -1
            else Plus(1, MatchOne(p[i + 1..], s[j + 1..]))
  {
    assert p[i..][1..] == p[i + 1..];
    if j < |s| {
      assert s[j..][1..] == s[j + 1..];
    }
  }

  /** The branch for '*': tries the longest run first. */
  method MatchFromStar(pattern: string, star: nat, str: string, j: nat) returns (res: int)
    requires '\0' !in pattern && '\0' !in str && '|' !in pattern
    requires star < |pattern| && pattern[star] == '*' && j <= |str|
    ensures res == Plus(j, MatchStar(AfterStar(pattern[star..]), str[j..], Reach(pattern[star..], str[j..])))
    decreases |pattern| - star, 0
  {
    hide MatchOne, MatchStar, Span, Match;
    var i, len := star + 1, 0;
    if i < |pattern| && pattern[i] == '*' {
      i := i + 1;
      len := |str| - j;
    } else {
      len := StrCSpn(str, j, '/');
    }
    assert AfterStar(pattern[star..]) == pattern[i..];
    MatchStarUnfold(pattern[i..], str[j..], len);
    assert str[j..][len..] == str[j + len..];
    if i == |pattern| {
      NothingLeft(str[j + len..]);
      return j + len;
    }
    res := MatchPrefix(pattern[i..], str[j + len..]);
    NoBar(pattern[i..], str[j + len..]);
    while res == -1 && len > 0
      invariant len <= |str| - j && res == MatchOne(pattern[i..], str[j..][len..])
      invariant MatchStar(pattern[i..], str[j..], Reach(pattern[star..], str[j..])) == MatchStar(pattern[i..], str[j..], len)
      decreases len
    {
      MatchStarUnfold(pattern[i..], str[j..], len);
      len := len - 1;
      assert str[j..][len..] == str[j + len..];
      res := MatchPrefix(pattern[i..], str[j + len..]);
      NoBar(pattern[i..], str[j + len..]);
    }
    MatchStarUnfold(pattern[i..], str[j..], len);
    return if res == -1 then -1 else j + res + len;
  }

  lemma MatchStarUnfold(rest: string, s: string, len: nat)
    requires len <= |s|
    ensures MatchStar(rest, s, len) ==
            if MatchOne(rest, s[len..]) != -1 then len + MatchOne(rest, s[len..])
            else if len == 0 then -1 else MatchStar(rest, s, len - 1)
    ensures MatchOne(rest, s[len..]) >= -1
  {
  }

  lemma NothingLeft(s: string)
    ensures MatchOne("", s) == 0
  {
  }

  method StrCSpn(s: string, start: nat, c: char) returns (n: nat)
    requires start <= |s|
    ensures n == Span(s[start..], c)
  {
    n := 0;
    while start + n < |s| && s[start + n] != c
      invariant start + n <= |s| && Span(s[start..], c) == n + Span(s[start + n..], c)
    {
      n := n + 1;
    }
  }

  lemma NoBar(p: string, s: string)
    requires '|' !in p
    ensures Match(p, s) == MatchOne(p, s)
  {
    var bar := Span(p, '|');
  }

  // ---------- what Match means ----------

  /** A match is a prefix of the string. */
  lemma {:induction false} MatchFits(p: string, s: string, n: int, stars: seq<nat>)
    requires MatchesWith(p, s, n, stars)
    ensures 0 <= n <= |s|
    decreases |p|
  {
    if p == [] || p[0] == '$' {
    } else if p[0] == '*' {
      MatchFits(AfterStar(p), s[stars[0]..], n - stars[0], stars[1..]);
    } else {
      MatchFits(p[1..], s[1..], n - 1, stars);
    }
  }

  lemma ReachIs(p: string, s: string, k: nat)
    requires k <= |s|
    ensures k <= Reach(p, s) <==> DoubleStar(p) || '/' !in s[..k]
  {
    var n := Span(s, '/');
    if k <= n {
      assert forall i :: 0 <= i < k ==> s[..k][i] == s[..n][i];
    } else {
      assert s[..k][n] == '/';
    }
  }

  /** -1 is the answer only when no prefix matches. */
  lemma {:induction false} Complete(p: string, s: string, n: int, stars: seq<nat>)
    requires MatchesWith(p, s, n, stars)
    ensures MatchOne(p, s) != -1
    decreases |p|
  {
    if p == [] || p[0] == '$' {
    } else if p[0] == '*' {
      Complete(AfterStar(p), s[stars[0]..], n - stars[0], stars[1..]);
      ReachIs(p, s, stars[0]);
      StarFinds(AfterStar(p), s, Reach(p, s), stars[0]);
    } else {
      Complete(p[1..], s[1..], n - 1, stars);
    }
  }

  lemma {:induction false} StarFinds(rest: string, s: string, len: nat, k: nat)
    requires k <= len <= |s| && MatchOne(rest, s[k..]) != -1
    ensures MatchStar(rest, s, len) != -1
  {
    hide MatchOne;
    if k < len {
      StarFinds(rest, s, len - 1, k);
    }
  }

  /** Where MatchStar stops: the longest run that lets the rest match. */
  lemma {:induction false} StarStops(rest: string, s: string, len: nat) returns (k: nat)
    requires len <= |s| && MatchStar(rest, s, len) != -1
    ensures k <= len && MatchOne(rest, s[k..]) != -1 && MatchStar(rest, s, len) == k + MatchOne(rest, s[k..])
    ensures forall l :: k < l <= len ==> MatchOne(rest, s[l..]) == -1
  {
    hide MatchOne;
    k := len;
    if MatchOne(rest, s[len..]) == -1 {
      k := StarStops(rest, s, len - 1);
    }
  }

  /** Any other answer is the greediest match. */
  lemma {:induction false} Sound(p: string, s: string) returns (stars: seq<nat>)
    requires MatchOne(p, s) != -1
    ensures MatchesWith(p, s, MatchOne(p, s), stars) && LastChoice(p, s, stars)
    decreases |p|
  {
    if p == [] || p[0] == '$' {
      stars := [];
    } else if p[0] == '*' {
      stars := SoundStar(p, s);
    } else {
      stars := Sound(p[1..], s[1..]);
    }
  }

  lemma {:induction false} SoundStar(p: string, s: string) returns (stars: seq<nat>)
    requires p != [] && p[0] == '*' && MatchOne(p, s) != -1
    ensures MatchesWith(p, s, MatchOne(p, s), stars) && LastChoice(p, s, stars)
    decreases |p|, 0
  {
    var rest := AfterStar(p);
    var k := StarStops(rest, s, Reach(p, s));
    var after := Sound(rest, s[k..]);
    ReachIs(p, s, k);
    stars := [k] + after;
    assert stars[1..] == after;
    forall n: int, other: seq<nat> | MatchesWith(p, s, n, other)
      ensures NotAfter(other, stars)
    {
      OtherRun(p, s, n, other, k, after);
    }
  }

  lemma OtherRun(p: string, s: string, n: int, other: seq<nat>, k: nat, after: seq<nat>)
    requires p != [] && p[0] == '*' && k <= |s| && MatchesWith(p, s, n, other)
    requires forall l :: k < l <= Reach(p, s) ==> MatchOne(AfterStar(p), s[l..]) == -1
    requires LastChoice(AfterStar(p), s[k..], after)
    ensures NotAfter(other, [k] + after)
  {
    var rest := AfterStar(p);
    assert MatchesWith(rest, s[other[0]..], n - other[0], other[1..]);
    ReachIs(p, s, other[0]);
    hide MatchesWith, MatchOne, AfterStar, Reach;
    Complete(rest, s[other[0]..], n - other[0], other[1..]);
    assert ([k] + after)[1..] == after;
  }

  /** Two stars take the longest run of any characters that lets the rest of the pattern match. */
  lemma DoubleStarMeans(rest: string, s: string)
    ensures MatchOne("**" + rest, s) == -1 <==> forall k :: 0 <= k <= |s| ==> MatchOne(rest, s[k..]) == -1
    ensures MatchOne("**" + rest, s) != -1 ==>
      exists k :: 0 <= k <= |s| && MatchOne(rest, s[k..]) != -1 && MatchOne("**" + rest, s) == k + MatchOne(rest, s[k..]) &&
                  forall l :: k < l <= |s| ==> MatchOne(rest, s[l..]) == -1
  {
    var p := "**" + rest;
    assert p[2..] == rest;
    StarMeans(p, s);
  }

  /** One star does the same with characters other than '/'. */
  lemma SingleStarMeans(rest: string, s: string)
    requires rest == [] || rest[0] != '*'
    ensures MatchOne("*" + rest, s) == -1 <==>
            forall k :: 0 <= k <= |s| && '/' !in s[..k] ==> MatchOne(rest, s[k..]) == -1
    ensures MatchOne("*" + rest, s) != -1 ==>
      exists k :: 0 <= k <= |s| && '/' !in s[..k] && MatchOne(rest, s[k..]) != -1 &&
                  MatchOne("*" + rest, s) == k + MatchOne(rest, s[k..]) &&
                  forall l :: k < l <= |s| && '/' !in s[..l] ==> MatchOne(rest, s[l..]) == -1
  {
    var p := "*" + rest;
    assert p[1..] == rest;
    StarMeans(p, s);
    forall k | 0 <= k <= |s|
      ensures k <= Reach(p, s) <==> '/' !in s[..k]
    {
      ReachIs(p, s, k);
    }
  }

  lemma StarMeans(p: string, s: string)
    requires p != [] && p[0] == '*'
    ensures var rest, reach := AfterStar(p), Reach(p, s);
            (MatchOne(p, s) == -1 <==> forall k :: 0 <= k <= reach ==> MatchOne(rest, s[k..]) == -1) &&
            (MatchOne(p, s) != -1 ==>
              exists k :: 0 <= k <= reach && MatchOne(rest, s[k..]) != -1 && MatchOne(p, s) == k + MatchOne(rest, s[k..]) &&
                          forall l :: k < l <= reach ==> MatchOne(rest, s[l..]) == -1)
  {
    hide AfterStar, Reach, MatchStar;
    var rest, reach := AfterStar(p), Reach(p, s);
    assert MatchOne(p, s) == MatchStar(rest, s, reach);
    forall k | 0 <= k <= reach && MatchOne(rest, s[k..]) != -1
      ensures MatchStar(rest, s, reach) != -1
    {
      StarFinds(rest, s, reach, k);
    }
    if MatchStar(rest, s, reach) != -1 {
      var k := StarStops(rest, s, reach);
    }
  }

  /** Without '|' the result is -1 exactly when no prefix matches, and otherwise the greediest match. */
  lemma MatchOneMeans(p: string, s: string)
    ensures MatchOne(p, s) == -1 <==> forall n :: !Matches(p, s, n)
    ensures MatchOne(p, s) != -1 ==> 0 <= MatchOne(p, s) <= |s| && Greediest(p, s, MatchOne(p, s))
  {
    hide MatchOne, MatchesWith, LastChoice;
    if MatchOne(p, s) != -1 {
      var stars := Sound(p, s);
      assert Matches(p, s, MatchOne(p, s));
    }
    forall n | Matches(p, s, n)
      ensures MatchOne(p, s) != -1
    {
      var stars :| MatchesWith(p, s, n, stars);
      Complete(p, s, n, stars);
    }
  }

  /** The greediest match is unique, so the result is determined by the relation alone. */
  lemma GreediestIsUnique(p: string, s: string, n: int)
    requires Greediest(p, s, n)
    ensures MatchOne(p, s) == n
  {
    hide MatchOne, MatchesWith;
    var stars :| MatchesWith(p, s, n, stars) && LastChoice(p, s, stars);
    Complete(p, s, n, stars);
    var best := Sound(p, s);
    NotAfterAntisymmetric(stars, best);
    LengthFromStars(p, s, n, MatchOne(p, s), stars);
  }

  lemma {:induction false} NotAfterAntisymmetric(a: seq<nat>, b: seq<nat>)
    requires NotAfter(a, b) && NotAfter(b, a)
    ensures a == b
  {
    if a != [] {
      NotAfterAntisymmetric(a[1..], b[1..]);
      assert a == [a[0]] + a[1..] && b == [b[0]] + b[1..];
    }
  }

  lemma {:induction false} LengthFromStars(p: string, s: string, n: int, m: int, stars: seq<nat>)
    requires MatchesWith(p, s, n, stars) && MatchesWith(p, s, m, stars)
    ensures n == m
    decreases |p|
  {
    if p == [] || p[0] == '$' {
    } else if p[0] == '*' {
      LengthFromStars(AfterStar(p), s[stars[0]..], n - stars[0], m - stars[0], stars[1..]);
    } else {
      LengthFromStars(p[1..], s[1..], n - 1, m - 1, stars);
    }
  }

  // ---------- alternatives ----------

  /** The alternatives of a pattern, in order. */
  function Alternatives(p: string): (r: seq<string>)
    ensures r != []
    decreases |p|
  {
    var bar := Span(p, '|');
    if bar == |p| then [p] else [p[..bar]] + Alternatives(p[bar + 1..])
  }

  function Joined(alternatives: seq<string>): string
    requires alternatives != []
  {
    if |alternatives| == 1 then alternatives[0] else alternatives[0] + "|" + Joined(alternatives[1..])
  }

  lemma AlternativesUnfold(p: string)
    ensures var bar := Span(p, '|');
            if bar == |p| then '|' !in p && Alternatives(p) == [p]
            else '|' !in p[..bar] && p == p[..bar] + "|" + p[bar + 1..] &&
                 Alternatives(p) == [p[..bar]] + Alternatives(p[bar + 1..])
  {
    hide Span;
    SpanSplits(p);
  }

  lemma SpanSplits(p: string)
    ensures var bar := Span(p, '|');
            '|' !in p[..bar] && p[..|p|] == p && (bar < |p| ==> p == p[..bar] + "|" + p[bar + 1..])
  {
    hide Span;
    var bar := Span(p, '|');
    if bar < |p| {
      SplitsAt(p, bar);
    }
  }

  lemma SplitsAt(p: string, bar: nat)
    requires bar < |p|
    ensures p == p[..bar] + [p[bar]] + p[bar + 1..]
  {
  }

  lemma JoinedUnfold(first: string, rest: seq<string>)
    ensures Joined([first]) == first
    ensures rest != [] ==> Joined([first] + rest) == first + "|" + Joined(rest)
  {
    assert ([first] + rest)[1..] == rest;
  }

  /** The alternatives have no '|' and make up the pattern. */
  lemma {:induction false} AlternativesMeans(p: string)
    ensures forall i :: 0 <= i < |Alternatives(p)| ==> '|' !in Alternatives(p)[i]
    ensures Joined(Alternatives(p)) == p
    decreases |p|
  {
    hide Alternatives, Joined, Span;
    var bar := Span(p, '|');
    AlternativesUnfold(p);
    if bar == |p| {
      JoinedUnfold(p, []);
    } else {
      AlternativesMeans(p[bar + 1..]);
      JoinedUnfold(p[..bar], Alternatives(p[bar + 1..]));
    }
  }

  lemma MatchUnfold(p: string, s: string)
    ensures var bar := Span(p, '|');
            Match(p, s) ==
              if bar == |p| then MatchOne(p, s)
              else if MatchOne(p[..bar], s) > 0 then MatchOne(p[..bar], s) else Match(p[bar + 1..], s)
  {
  }

  /**
   The result is that of the first alternative whose own result is positive, and that of the last
   alternative when there is none.
   */
  lemma {:induction false} FirstAlternative(p: string, s: string) returns (k: nat)
    ensures k < |Alternatives(p)| && Match(p, s) == MatchOne(Alternatives(p)[k], s)
    ensures forall i :: 0 <= i < k ==> MatchOne(Alternatives(p)[i], s) <= 0
    ensures Match(p, s) > 0 || k == |Alternatives(p)| - 1
    decreases |p|
  {
    hide MatchOne, Alternatives, Match, Span;
    var bar := Span(p, '|');
    AlternativesUnfold(p);
    MatchUnfold(p, s);
    k := 0;
    if bar < |p| && MatchOne(p[..bar], s) <= 0 {
      k := FirstAlternative(p[bar + 1..], s);
      k := k + 1;
    }
  }

  /** With '|' the result is positive exactly when some alternative alone gives a positive result. */
  lemma PositiveAlternative(p: string, s: string)
    ensures Match(p, s) > 0 <==> exists a :: a in Alternatives(p) && MatchOne(a, s) > 0
  {
    hide MatchOne, Alternatives, Match;
    var k := FirstAlternative(p, s);
    assert Alternatives(p)[k] in Alternatives(p);
  }
}
