/**
 * The access-log line validator: `^\S+ \S+ \S+ \[[^\]]+\] "\w+ .+ HTTP/\d\.\d" \d+`
 * applied with `re.match`, so anchored at the start of the line only.
 *
 * `MatchesLogPattern` reads the pattern as a concatenation, with one existential
 * split point per variable-length segment; that is what the regex engine's
 * backtracking searches for. `IsValidLog` is a deterministic scanner that the
 * analyzer runs; `IsValidLogMatchesPattern` proves the two agree on every line.
 */
module LogValidator {
  import opened Text

  // ---------------------------------------------------------------------------
  // The pattern, segment by segment, as a specification.
  // ---------------------------------------------------------------------------

  ghost predicate MatchesLogPattern(s: string) {
    TokensFrom(s, 0, 3)
  }

  /** `\S+ ` repeated `n` times from index `i`, then the bracketed timestamp. */
  ghost predicate TokensFrom(s: string, i: nat, n: nat)
    decreases n
  {
    if n == 0 then BracketFrom(s, i)
    else exists a: nat :: TokenAt(s, i, a) && TokensFrom(s, a + 1, n - 1)
  }

  /** `s[i..a]` is a `\S+` token and a single space follows it. */
  ghost predicate TokenAt(s: string, i: nat, a: nat) {
    Span(s, i, a, NotSpace) && OccursAt(s, " ", a)
  }

  /** `\[[^\]]+\] "` from index `i`, then the request. */
  ghost predicate BracketFrom(s: string, i: nat) {
    exists d: nat :: BracketAt(s, i, d) && RequestFrom(s, d + 3)
  }

  /** `[` at index `i`, a `[^\]]+` run up to `d`, and `] "` at `d`. */
  ghost predicate BracketAt(s: string, i: nat, d: nat) {
    OccursAt(s, "[", i) && Span(s, i + 1, d, NotCloseBracket) && OccursAt(s, "] \"", d)
  }

  /** `\w+ ` from index `i`, then the target. */
  ghost predicate RequestFrom(s: string, i: nat) {
    exists e: nat :: MethodAt(s, i, e) && TargetFrom(s, e + 1)
  }

  ghost predicate MethodAt(s: string, i: nat, e: nat) {
    Span(s, i, e, IsWordChar) && OccursAt(s, " ", e)
  }

  /** `.+ HTTP/` from index `i`, then the version and status. */
  ghost predicate TargetFrom(s: string, i: nat) {
    exists f: nat :: TargetAt(s, i, f)
  }

  ghost predicate TargetAt(s: string, i: nat, f: nat) {
    Span(s, i, f, NotNewline) && OccursAt(s, " HTTP/", f) && VersionFrom(s, f + 6)
  }

  /** `\d\.\d" \d+` from index `v`; nothing needs to follow, as the pattern has no end anchor. */
  ghost predicate VersionFrom(s: string, v: nat) {
    Span(s, v, v + 1, IsDigit) && OccursAt(s, ".", v + 1) && Span(s, v + 2, v + 3, IsDigit)
    && OccursAt(s, "\" ", v + 3) && DigitsFrom(s, v + 5)
  }

  /** `\d+` from index `b`. */
  ghost predicate DigitsFrom(s: string, b: nat) {
    exists g: nat :: Span(s, b, g, IsDigit)
  }

  // ---------------------------------------------------------------------------
  // The deterministic scanner.
  // ---------------------------------------------------------------------------

  /** `is_valid_log(line)`. */
  predicate IsValidLog(s: string) {
    CheckTokens(s, 0, 3)
  }

  predicate CheckTokens(s: string, i: nat, n: nat)
    requires i <= |s|
    decreases n
  {
    if n == 0 then CheckBracket(s, i)
    else
      var a := RunEnd(s, i, NotSpace);
      i < a && OccursAt(s, " ", a) && CheckTokens(s, a + 1, n - 1)
  }

  predicate CheckBracket(s: string, i: nat)
    requires i <= |s|
  {
    OccursAt(s, "[", i) &&
    var d := RunEnd(s, i + 1, NotCloseBracket);
    i + 1 < d && OccursAt(s, "] \"", d) && CheckRequest(s, d + 3)
  }

  predicate CheckRequest(s: string, i: nat)
    requires i <= |s|
  {
    var e := RunEnd(s, i, IsWordChar);
    i < e && OccursAt(s, " ", e) && CheckTarget(s, e + 1)
  }

  /** `.+` must take at least one character; the split point is searched left to right. */
  predicate CheckTarget(s: string, i: nat) {
    i < |s| && NotNewline(s[i]) && SearchTarget(s, i + 1)
  }

  predicate SearchTarget(s: string, f: nat)
    decreases |s| - f
  {
    if f >= |s| then false
    else if OccursAt(s, " HTTP/", f) && CheckVersion(s, f + 6) then true
    else if !NotNewline(s[f]) then false
    else SearchTarget(s, f + 1)
  }

  predicate CheckVersion(s: string, v: nat) {
    v + 6 <= |s| && IsDigit(s[v]) && s[v + 1] == '.' && IsDigit(s[v + 2])
    && s[v + 3] == '"' && s[v + 4] == ' ' && IsDigit(s[v + 5])
  }

  // ---------------------------------------------------------------------------
  // The scanner decides the pattern.
  // ---------------------------------------------------------------------------

  lemma VersionCorrect(s: string, v: nat)
    ensures CheckVersion(s, v) <==> VersionFrom(s, v)
  {
    if CheckVersion(s, v) {
      assert Span(s, v + 5, v + 6, IsDigit);
      assert s[v + 3..v + 5] == "\" ";
    }
    if VersionFrom(s, v) {
      var g: nat :| Span(s, v + 5, g, IsDigit);
      assert s[v + 3..v + 5][0] == s[v + 3];
      assert s[v + 3..v + 5][1] == s[v + 4];
    }
  }

  lemma {:induction false} SearchTargetCorrect(s: string, i: nat, f: nat)
    requires i < f && (f < |s| ==> Span(s, i, f, NotNewline))
    ensures SearchTarget(s, f) <==> exists g: nat :: f <= g && TargetAt(s, i, g)
    decreases |s| - f
  {
    if f < |s| {
      VersionCorrect(s, f + 6);
      if OccursAt(s, " HTTP/", f) && CheckVersion(s, f + 6) {
        assert TargetAt(s, i, f);
      } else if !NotNewline(s[f]) {
        forall g: nat | f <= g ensures !TargetAt(s, i, g) {
          if g > f { assert !Span(s, i, g, NotNewline); }
        }
      } else {
        SearchTargetCorrect(s, i, f + 1);
        assert !TargetAt(s, i, f);
      }
    }
  }

  lemma TargetCorrect(s: string, i: nat)
    ensures CheckTarget(s, i) <==> TargetFrom(s, i)
  {
    if i < |s| && NotNewline(s[i]) {
      SearchTargetCorrect(s, i, i + 1);
    }
  }

  lemma RequestCorrect(s: string, i: nat)
    requires i <= |s|
    ensures CheckRequest(s, i) <==> RequestFrom(s, i)
  {
    var e := RunEnd(s, i, IsWordChar);
    RunEndSpan(s, i, IsWordChar);
    TargetCorrect(s, e + 1);
    if RequestFrom(s, i) {
      var e': nat :| MethodAt(s, i, e') && TargetFrom(s, e' + 1);
      SpanStopsAtRunEnd(s, i, e', IsWordChar);
    }
    if CheckRequest(s, i) {
      assert MethodAt(s, i, e);
    }
  }

  lemma BracketCorrect(s: string, i: nat)
    requires i <= |s|
    ensures CheckBracket(s, i) <==> BracketFrom(s, i)
  {
    if CheckBracket(s, i) {
      BracketSound(s, i);
    }
    if BracketFrom(s, i) {
      BracketComplete(s, i);
    }
  }

  lemma BracketSound(s: string, i: nat)
    requires i <= |s| && CheckBracket(s, i)
    ensures BracketFrom(s, i)
  {
    var d := RunEnd(s, i + 1, NotCloseBracket);
    RunEndSpan(s, i + 1, NotCloseBracket);
    assert OccursAt(s, "] \"", d) && CheckRequest(s, d + 3);
    RequestCorrect(s, d + 3);
    assert Span(s, i + 1, d, NotCloseBracket);
    assert BracketAt(s, i, d) && RequestFrom(s, d + 3);
  }

  lemma BracketComplete(s: string, i: nat)
    requires i <= |s| && BracketFrom(s, i)
    ensures CheckBracket(s, i)
  {
    var d: nat :| BracketAt(s, i, d) && RequestFrom(s, d + 3);
    RequestCorrect(s, d + 3);
    BracketCheckAt(s, i, d);
  }

  lemma BracketCheckAt(s: string, i: nat, d: nat)
    requires i <= |s| && BracketAt(s, i, d) && d + 3 <= |s| && CheckRequest(s, d + 3)
    ensures CheckBracket(s, i)
  {
    assert s[d] == s[d..d + 3][0];
    SpanStopsAtRunEnd(s, i + 1, d, NotCloseBracket);
  }

  lemma TokensCorrect(s: string, i: nat, n: nat)
    requires i <= |s|
    ensures CheckTokens(s, i, n) <==> TokensFrom(s, i, n)
  {
    if CheckTokens(s, i, n) {
      TokensSound(s, i, n);
    }
    if TokensFrom(s, i, n) {
      TokensComplete(s, i, n);
    }
  }

  lemma {:induction false} TokensSound(s: string, i: nat, n: nat)
    requires i <= |s| && CheckTokens(s, i, n)
    ensures TokensFrom(s, i, n)
    decreases n
  {
    if n == 0 {
      BracketSound(s, i);
    } else {
      var a := RunEnd(s, i, NotSpace);
      RunEndSpan(s, i, NotSpace);
      TokensSound(s, a + 1, n - 1);
      assert TokenAt(s, i, a);
    }
  }

  lemma {:induction false} TokensComplete(s: string, i: nat, n: nat)
    requires i <= |s| && TokensFrom(s, i, n)
    ensures CheckTokens(s, i, n)
    decreases n
  {
    if n == 0 {
      BracketComplete(s, i);
    } else {
      var a: nat :| TokenAt(s, i, a) && TokensFrom(s, a + 1, n - 1);
      assert s[a] == s[a..a + 1][0];
      SpanStopsAtRunEnd(s, i, a, NotSpace);
      TokensComplete(s, a + 1, n - 1);
    }
  }

  /** The scanner accepts exactly the lines the regular expression matches. */
  lemma IsValidLogMatchesPattern(s: string)
    ensures IsValidLog(s) <==> MatchesLogPattern(s)
  {
    TokensCorrect(s, 0, 3);
  }

  // ---------------------------------------------------------------------------
  // Properties of the pattern.
  // ---------------------------------------------------------------------------

  lemma {:induction false} TokensNeedQuote(s: string, i: nat, n: nat)
    requires TokensFrom(s, i, n)
    ensures '"' in s
    decreases n
  {
    if n == 0 {
      var d: nat :| BracketAt(s, i, d) && RequestFrom(s, d + 3);
      assert s[d + 2] == s[d..d + 3][2];
    } else {
      var a: nat :| TokenAt(s, i, a) && TokensFrom(s, a + 1, n - 1);
      TokensNeedQuote(s, a + 1, n - 1);
    }
  }

  /** A valid line contains a double quote; in particular the empty line is invalid. */
  lemma ValidLogHasQuote(s: string)
    ensures IsValidLog(s) ==> '"' in s
  {
    IsValidLogMatchesPattern(s);
    if IsValidLog(s) {
      TokensNeedQuote(s, 0, 3);
    }
  }

  lemma ExtendSpan(s: string, t: string, i: nat, j: nat, p: char -> bool)
    requires Span(s, i, j, p)
    ensures Span(s + t, i, j, p)
  {
    forall k | i <= k < j ensures p((s + t)[k]) {
      assert (s + t)[k] == s[k];
    }
  }

  lemma ExtendOccurs(s: string, t: string, w: string, i: nat)
    requires OccursAt(s, w, i)
    ensures OccursAt(s + t, w, i)
  {
    assert (s + t)[i..i + |w|] == s[i..i + |w|];
  }

  lemma ExtendVersion(s: string, t: string, v: nat)
    requires VersionFrom(s, v)
    ensures VersionFrom(s + t, v)
  {
    var g: nat :| Span(s, v + 5, g, IsDigit);
    ExtendSpan(s, t, v, v + 1, IsDigit);
    ExtendOccurs(s, t, ".", v + 1);
    ExtendSpan(s, t, v + 2, v + 3, IsDigit);
    ExtendOccurs(s, t, "\" ", v + 3);
    ExtendSpan(s, t, v + 5, g, IsDigit);
  }

  lemma ExtendRequest(s: string, t: string, i: nat)
    requires RequestFrom(s, i)
    ensures RequestFrom(s + t, i)
  {
    var e: nat :| MethodAt(s, i, e) && TargetFrom(s, e + 1);
    var f: nat :| TargetAt(s, e + 1, f);
    ExtendSpan(s, t, i, e, IsWordChar);
    ExtendOccurs(s, t, " ", e);
    ExtendSpan(s, t, e + 1, f, NotNewline);
    ExtendOccurs(s, t, " HTTP/", f);
    ExtendVersion(s, t, f + 6);
    assert TargetAt(s + t, e + 1, f);
    assert MethodAt(s + t, i, e);
  }

  lemma {:induction false} ExtendTokens(s: string, t: string, i: nat, n: nat)
    requires TokensFrom(s, i, n)
    ensures TokensFrom(s + t, i, n)
    decreases n
  {
    if n == 0 {
      var d: nat :| BracketAt(s, i, d) && RequestFrom(s, d + 3);
      ExtendOccurs(s, t, "[", i);
      ExtendSpan(s, t, i + 1, d, NotCloseBracket);
      ExtendOccurs(s, t, "] \"", d);
      ExtendRequest(s, t, d + 3);
      assert BracketAt(s + t, i, d);
    } else {
      var a: nat :| TokenAt(s, i, a) && TokensFrom(s, a + 1, n - 1);
      ExtendSpan(s, t, i, a, NotSpace);
      ExtendOccurs(s, t, " ", a);
      ExtendTokens(s, t, a + 1, n - 1);
      assert TokenAt(s + t, i, a);
    }
  }

  /** The pattern is anchored at the start only: any text may follow a valid line. */
  lemma ValidLogAllowsSuffix(s: string, t: string)
    requires IsValidLog(s)
    ensures IsValidLog(s + t)
  {
    IsValidLogMatchesPattern(s);
    ExtendTokens(s, t, 0, 3);
    IsValidLogMatchesPattern(s + t);
  }
}
