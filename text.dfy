/**
 * The pieces of Python string semantics that `analyze_logs` relies on, over ASCII:
 * the character classes `\s`, `\S`, `\w`, `\d` and `.`, the substring test `in`,
 * `str.split(sep)`, `str.split()`, `sep.join(...)` and `int(...)`.
 */
module Text {
  import opened Options

  /** Whitespace as `str.split()` and the regex class `\s` see it (ASCII part). */
  predicate IsSpace(c: char) {
    c == ' ' || c == '\t' || c == '\n' || c == '\r' || c == '\U{0B}' || c == '\U{0C}'
    || ('\U{1C}' <= c <= '\U{1F}')
  }

  /** The regex class `\S`. */
  predicate NotSpace(c: char) { !IsSpace(c) }

  /** The regex class `\d` (ASCII digits). */
  predicate IsDigit(c: char) { '0' <= c <= '9' }

  /** The regex class `\w` (ASCII letters, digits and underscore). */
  predicate IsWordChar(c: char) {
    ('a' <= c <= 'z') || ('A' <= c <= 'Z') || IsDigit(c) || c == '_'
  }

  /** The regex class `[^\]]`. */
  predicate NotCloseBracket(c: char) { c != ']' }

  /** The regex wildcard `.`, which does not match a newline. */
  predicate NotNewline(c: char) { c != '\n' }

  /** `t` occurs in `s` starting at index `i`. */
  predicate OccursAt(s: string, t: string, i: nat) {
    i + |t| <= |s| && s[i..i + |t|] == t
  }

  /** Python's `t in s` for strings. */
  predicate Contains(s: string, t: string) {
    exists i: nat | i <= |s| :: OccursAt(s, t, i)
  }

  /** Every character of `s[i..j]` is in class `p`, and the span is not empty. */
  ghost predicate Span(s: string, i: nat, j: nat, p: char -> bool) {
    i < j <= |s| && forall k :: i <= k < j ==> p(s[k])
  }

  /** The end of the longest run of class-`p` characters starting at `i` (a greedy `p*`). */
  function RunEnd(s: string, i: nat, p: char -> bool): (e: nat)
    requires i <= |s|
    ensures i <= e <= |s|
    decreases |s| - i
  {
    if i == |s| || !p(s[i]) then i else RunEnd(s, i + 1, p)
  }

  /** The run is all class `p`, and it stops at the end of `s` or at a character outside `p`. */
  lemma {:induction false} RunEndSpan(s: string, i: nat, p: char -> bool)
    requires i <= |s|
    ensures forall k :: i <= k < RunEnd(s, i, p) ==> p(s[k])
    ensures RunEnd(s, i, p) < |s| ==> !p(s[RunEnd(s, i, p)])
    decreases |s| - i
  {
    if i < |s| && p(s[i]) {
      RunEndSpan(s, i + 1, p);
    }
  }

  /** A span of class `p` followed by a character outside `p` ends exactly where the greedy run ends. */
  lemma {:induction false} SpanStopsAtRunEnd(s: string, i: nat, j: nat, p: char -> bool)
    requires Span(s, i, j, p) && j < |s| && !p(s[j])
    ensures RunEnd(s, i, p) == j
    decreases j - i
  {
    if i + 1 < j {
      SpanStopsAtRunEnd(s, i + 1, j, p);
    }
  }

  /** `sep.join(parts)`. */
  function Join(parts: seq<string>, sep: string): string
    decreases |parts|
  {
    if |parts| == 0 then ""
    else if |parts| == 1 then parts[0]
    else parts[0] + sep + Join(parts[1..], sep)
  }

  /** `s.split(c)` for a one-character separator: the pieces between occurrences of `c`. */
  function SplitOn(s: string, c: char): (parts: seq<string>)
    ensures |parts| >= 1
    ensures Join(parts, [c]) == s
    decreases |s|
  {
    if s == [] then [[]]
    else
      var rest := SplitOn(s[1..], c);
      assert s == [s[0]] + s[1..];
      if s[0] == c then
        JoinAfterEmpty(rest, [c]);
        [[]] + rest
      else
        JoinExtendFirst(s[0], rest, [c]);
        [[s[0]] + rest[0]] + rest[1..]
  }

  /** No piece contains the separator, and there is more than one piece exactly when the separator occurs. */
  lemma {:induction false} SplitOnPieces(s: string, c: char)
    ensures forall k :: 0 <= k < |SplitOn(s, c)| ==> c !in SplitOn(s, c)[k]
    ensures c in s <==> |SplitOn(s, c)| >= 2
    decreases |s|
  {
    if s != [] {
      var rest := SplitOn(s[1..], c);
      SplitOnPieces(s[1..], c);
      assert s == [s[0]] + s[1..];
      if s[0] == c {
        assert SplitOn(s, c) == [[]] + rest;
      } else {
        var parts := [[s[0]] + rest[0]] + rest[1..];
        assert SplitOn(s, c) == parts;
        assert c in s <==> c in s[1..];
        forall k | 0 <= k < |parts| ensures c !in parts[k] {
          if k > 0 {
            assert parts[k] == rest[k];
          }
        }
      }
    }
  }

  lemma JoinAfterEmpty(rest: seq<string>, sep: string)
    requires |rest| >= 1
    ensures Join([[]] + rest, sep) == sep + Join(rest, sep)
  {
    assert ([[]] + rest)[1..] == rest;
  }

  lemma JoinExtendFirst(x: char, rest: seq<string>, sep: string)
    requires |rest| >= 1
    ensures Join([[x] + rest[0]] + rest[1..], sep) == [x] + Join(rest, sep)
  {
    var parts := [[x] + rest[0]] + rest[1..];
    assert parts[1..] == rest[1..];
  }

  /** `s.split()`: the maximal runs of non-whitespace characters, in order. */
  function Words(s: string): (ws: seq<string>)
    decreases |s|
  {
    if s == [] then []
    else if IsSpace(s[0]) then Words(s[1..])
    else
      var n := RunEnd(s, 0, NotSpace);
      [s[..n]] + Words(s[n..])
  }

  /** Every word is a non-empty run of non-whitespace, and there is none exactly when `s` is all whitespace. */
  lemma {:induction false} WordsShape(s: string)
    ensures forall k :: 0 <= k < |Words(s)| ==> Words(s)[k] != [] && forall j :: 0 <= j < |Words(s)[k]| ==> NotSpace(Words(s)[k][j])
    ensures Words(s) == [] <==> forall k :: 0 <= k < |s| ==> IsSpace(s[k])
    decreases |s|
  {
    if s == [] {
    } else if IsSpace(s[0]) {
      WordsShape(s[1..]);
      assert forall k :: 1 <= k < |s| ==> s[k] == s[1..][k - 1];
    } else {
      var n := RunEnd(s, 0, NotSpace);
      RunEndSpan(s, 0, NotSpace);
      WordsShape(s[n..]);
      var ws := [s[..n]] + Words(s[n..]);
      assert Words(s) == ws;
      forall k | 0 <= k < |ws| ensures ws[k] != [] && forall j :: 0 <= j < |ws[k]| ==> NotSpace(ws[k][j]) {
        if k > 0 {
          assert ws[k] == Words(s[n..])[k - 1];
        }
      }
    }
  }

  /** A word begins at `p`: a non-whitespace character at the start of `s` or after whitespace. */
  predicate IsWordStart(s: string, p: nat)
    requires p < |s|
  {
    NotSpace(s[p]) && (p == 0 || IsSpace(s[p - 1]))
  }

  /** How many words begin before index `n`. */
  function WordStarts(s: string, n: nat): nat
    requires n <= |s|
    decreases n
  {
    if n == 0 then 0 else WordStarts(s, n - 1) + (if IsWordStart(s, n - 1) then 1 else 0)
  }

  /** `s[i..j]` is a maximal run of non-whitespace characters. */
  ghost predicate WordAt(s: string, i: nat, j: nat) {
    && i < j <= |s|
    && (i == 0 || IsSpace(s[i - 1]))
    && (forall k :: i <= k < j ==> NotSpace(s[k]))
    && (j == |s| || IsSpace(s[j]))
  }

  /**
   * `s.split()` lists the maximal non-whitespace runs in order: there are as
   * many words as runs, and the run with `r` runs before it is word `r`.
   */
  lemma {:induction false} WordsAreRuns(s: string)
    ensures |Words(s)| == WordStarts(s, |s|)
    ensures forall i: nat, j: nat :: WordAt(s, i, j) ==> WordStarts(s, i) < |Words(s)| && Words(s)[WordStarts(s, i)] == s[i..j]
    decreases |s|, 1
  {
    if s == [] {
    } else if IsSpace(s[0]) {
      WordsAfterSpace(s);
    } else {
      WordsAfterRun(s);
    }
  }

  lemma {:induction false} WordsAfterSpace(s: string)
    requires s != [] && IsSpace(s[0])
    ensures |Words(s)| == WordStarts(s, |s|)
    ensures forall i: nat, j: nat :: WordAt(s, i, j) ==> WordStarts(s, i) < |Words(s)| && Words(s)[WordStarts(s, i)] == s[i..j]
    decreases |s|, 0
  {
    var rest := s[1..];
    assert Words(s) == Words(rest);
    WordsAreRuns(rest);
    assert WordStarts(s, 1) == 0;
    WordStartsShift(s, 1, |s|);
    forall i: nat, j: nat | WordAt(s, i, j)
      ensures WordStarts(s, i) < |Words(s)| && Words(s)[WordStarts(s, i)] == s[i..j]
    {
      RunAfterSpace(s, i, j);
      WordStartsShift(s, 1, i);
    }
  }

  /** A maximal run of a line that opens with whitespace is a maximal run of the rest. */
  lemma RunAfterSpace(s: string, i: nat, j: nat)
    requires s != [] && IsSpace(s[0]) && WordAt(s, i, j)
    ensures 0 < i && WordAt(s[1..], i - 1, j - 1) && s[i..j] == s[1..][i - 1..j - 1]
  {
    assert NotSpace(s[i]);
    assert 1 < i ==> s[1..][i - 2] == s[i - 1];
    assert j < |s| ==> s[1..][j - 1] == s[j];
    assert forall k :: i - 1 <= k < j - 1 ==> s[1..][k] == s[k + 1];
  }

  lemma {:induction false} WordsAfterRun(s: string)
    requires s != [] && NotSpace(s[0])
    ensures |Words(s)| == WordStarts(s, |s|)
    ensures forall i: nat, j: nat :: WordAt(s, i, j) ==> WordStarts(s, i) < |Words(s)| && Words(s)[WordStarts(s, i)] == s[i..j]
    decreases |s|, 0
  {
    var n := RunEnd(s, 0, NotSpace);
    RunEndSpan(s, 0, NotSpace);
    var rest := s[n..];
    assert Words(s) == [s[..n]] + Words(rest);
    WordsAreRuns(rest);
    LeadingRunStarts(s, n);
    WordStartsShift(s, n, |s|);
    forall i: nat, j: nat | WordAt(s, i, j)
      ensures WordStarts(s, i) < |Words(s)| && Words(s)[WordStarts(s, i)] == s[i..j]
    {
      if i == 0 {
        FirstRun(s, n, j);
      } else {
        LaterRun(s, n, i, j);
        WordStartsShift(s, n, i);
      }
    }
  }

  /** The run at the start of `s` is the first maximal run. */
  lemma FirstRun(s: string, n: nat, j: nat)
    requires 0 < n <= |s| && (forall k :: 0 <= k < n ==> NotSpace(s[k])) && (n < |s| ==> IsSpace(s[n]))
    requires WordAt(s, 0, j)
    ensures j == n
  {
    assert j < |s| ==> IsSpace(s[j]);
    assert NotSpace(s[j - 1]);
  }

  /** A maximal run after the first one lies past it, and is a maximal run of what follows. */
  lemma LaterRun(s: string, n: nat, i: nat, j: nat)
    requires 0 < n <= |s| && (forall k :: 0 <= k < n ==> NotSpace(s[k])) && (n < |s| ==> IsSpace(s[n]))
    requires WordAt(s, i, j) && 0 < i
    ensures n < i && WordAt(s[n..], i - n, j - n) && s[i..j] == s[n..][i - n..j - n]
  {
    assert IsSpace(s[i - 1]);
    assert n < i;
    assert s[n..][i - n - 1] == s[i - 1];
    assert j < |s| ==> s[n..][j - n] == s[j];
    assert forall k :: i - n <= k < j - n ==> s[n..][k] == s[k + n];
  }

  /** A leading run of non-whitespace holds exactly one word start. */
  lemma {:induction false} LeadingRunStarts(s: string, n: nat)
    requires 0 < n <= |s|
    requires forall k :: 0 <= k < n ==> NotSpace(s[k])
    ensures WordStarts(s, n) == 1
    decreases n
  {
    if n > 1 {
      LeadingRunStarts(s, n - 1);
      assert !IsWordStart(s, n - 1) by { assert NotSpace(s[n - 2]); }
    }
  }

  /** Counting word starts across a cut at whitespace: the starts before the cut, then those after it. */
  lemma {:induction false} WordStartsShift(s: string, d: nat, i: nat)
    requires 0 < d <= i <= |s|
    requires d < |s| ==> IsSpace(s[d - 1]) || IsSpace(s[d])
    ensures WordStarts(s, i) == WordStarts(s, d) + WordStarts(s[d..], i - d)
    decreases i
  {
    if i > d {
      WordStartsShift(s, d, i - 1);
      var t := s[d..];
      assert t[i - 1 - d] == s[i - 1];
      if i - 1 > d {
        assert t[i - 2 - d] == s[i - 2];
      }
      assert IsWordStart(s, i - 1) == IsWordStart(t, i - 1 - d);
    }
  }

  /**
   * `s[i..j]` is the last whitespace-separated token of `s`: a maximal run of
   * non-whitespace characters with only whitespace after it.
   */
  ghost predicate LastTokenAt(s: string, i: nat, j: nat) {
    && i < j <= |s|
    && (i == 0 || IsSpace(s[i - 1]))
    && (forall k :: i <= k < j ==> NotSpace(s[k]))
    && (forall k :: j <= k < |s| ==> IsSpace(s[k]))
  }

  /** Dropping a prefix that ends before the token keeps it the last token. */
  lemma ShiftLastToken(s: string, d: nat, i: nat, j: nat)
    requires d <= i <= j <= |s|
    requires i == d && d > 0 ==> IsSpace(s[d - 1])
    ensures LastTokenAt(s, i, j) <==> LastTokenAt(s[d..], i - d, j - d)
    ensures s[i..j] == s[d..][i - d..j - d]
  {
  }

  /** `s.split()[-1]` exists exactly when `s` has a last token, and it is that token. */
  lemma {:induction false} LastWord(s: string)
    ensures Words(s) != [] <==> exists i: nat, j: nat :: LastTokenAt(s, i, j)
    ensures forall i: nat, j: nat :: LastTokenAt(s, i, j) ==> s[i..j] == Words(s)[|Words(s)| - 1]
    decreases |s|, 2
  {
    if s == [] {
    } else if IsSpace(s[0]) {
      LastWordAfterSpace(s);
    } else {
      LastWordAfterToken(s);
    }
  }

  lemma {:induction false} LastWordAfterSpace(s: string)
    requires s != [] && IsSpace(s[0])
    ensures Words(s) != [] <==> exists i: nat, j: nat :: LastTokenAt(s, i, j)
    ensures forall i: nat, j: nat :: LastTokenAt(s, i, j) ==> s[i..j] == Words(s)[|Words(s)| - 1]
    decreases |s|, 0
  {
    var rest := s[1..];
    assert Words(s) == Words(rest);
    LastWord(rest);
    assert forall i: nat, j: nat :: LastTokenAt(s, i, j) ==> Words(rest) != [] && s[i..j] == Words(rest)[|Words(rest)| - 1] by {
      forall i: nat, j: nat | LastTokenAt(s, i, j)
        ensures Words(rest) != [] && s[i..j] == Words(rest)[|Words(rest)| - 1]
      {
        assert NotSpace(s[i]);
        ShiftLastToken(s, 1, i, j);
      }
    }
    if Words(rest) != [] {
      var i: nat, j: nat :| LastTokenAt(rest, i, j);
      ShiftLastToken(s, 1, i + 1, j + 1);
      assert LastTokenAt(s, i + 1, j + 1);
    }
  }

  lemma {:induction false} LastWordAfterToken(s: string)
    requires s != [] && NotSpace(s[0])
    ensures Words(s) != [] <==> exists i: nat, j: nat :: LastTokenAt(s, i, j)
    ensures forall i: nat, j: nat :: LastTokenAt(s, i, j) ==> s[i..j] == Words(s)[|Words(s)| - 1]
    decreases |s|, 1
  {
    var n := RunEnd(s, 0, NotSpace);
    RunEndSpan(s, 0, NotSpace);
    assert Words(s) == [s[..n]] + Words(s[n..]);
    if Words(s[n..]) == [] {
      LoneWord(s, n);
    } else {
      LaterWord(s, n);
      assert Words(s)[|Words(s)| - 1] == Words(s[n..])[|Words(s[n..])| - 1];
    }
  }

  /** The first run is the only word: it is the last token. */
  lemma LoneWord(s: string, n: nat)
    requires 0 < n <= |s|
    requires forall k :: 0 <= k < n ==> NotSpace(s[k])
    requires Words(s[n..]) == [] && Words(s) == [s[..n]] + Words(s[n..])
    ensures exists i: nat, j: nat :: LastTokenAt(s, i, j)
    ensures forall i: nat, j: nat :: LastTokenAt(s, i, j) ==> s[i..j] == Words(s)[|Words(s)| - 1]
  {
    var rest := s[n..];
    WordsShape(rest);
    assert forall k :: n <= k < |s| ==> IsSpace(s[k]) by {
      forall k | n <= k < |s| ensures IsSpace(s[k]) {
        assert s[k] == rest[k - n];
      }
    }
    OnlyToken(s, n);
  }

  /** More words follow the first run: the last token is the last token of the rest. */
  lemma {:induction false} LaterWord(s: string, n: nat)
    requires 0 < n <= |s|
    requires forall k :: 0 <= k < n ==> NotSpace(s[k])
    requires n < |s| ==> IsSpace(s[n])
    requires Words(s[n..]) != []
    ensures exists i: nat, j: nat :: LastTokenAt(s, i, j)
    ensures forall i: nat, j: nat :: LastTokenAt(s, i, j) ==> s[i..j] == Words(s[n..])[|Words(s[n..])| - 1]
    decreases |s|, 0
  {
    var rest := s[n..];
    LastWord(rest);
    var i': nat, j': nat :| LastTokenAt(rest, i', j');
    assert 0 < i' by { assert rest[0] == s[n]; }
    assert NotSpace(s[i' + n]) by { assert rest[i'] == s[i' + n]; }
    ShiftLastToken(s, n, i' + n, j' + n);
    forall i: nat, j: nat | LastTokenAt(s, i, j)
      ensures s[i..j] == Words(rest)[|Words(rest)| - 1]
    {
      LaterToken(s, n, i' + n, i, j);
    }
  }

  /** A leading token followed only by whitespace is the one last token. */
  lemma OnlyToken(s: string, n: nat)
    requires 0 < n <= |s|
    requires forall k :: 0 <= k < n ==> NotSpace(s[k])
    requires forall k :: n <= k < |s| ==> IsSpace(s[k])
    ensures LastTokenAt(s, 0, n)
    ensures forall i: nat, j: nat :: LastTokenAt(s, i, j) ==> i == 0 && j == n
  {
    forall i: nat, j: nat | LastTokenAt(s, i, j) ensures i == 0 && j == n {
      assert NotSpace(s[i]) && NotSpace(s[j - 1]);
      assert j < |s| ==> IsSpace(s[j]);
    }
  }

  /** When a non-whitespace character follows the first run, the last token lies past that run. */
  lemma LaterToken(s: string, n: nat, m: nat, i: nat, j: nat)
    requires 0 < n <= m < |s| && NotSpace(s[m])
    requires forall k :: 0 <= k < n ==> NotSpace(s[k])
    requires IsSpace(s[n])
    requires LastTokenAt(s, i, j)
    ensures n <= i && LastTokenAt(s[n..], i - n, j - n) && s[i..j] == s[n..][i - n..j - n]
  {
    assert NotSpace(s[i]) && NotSpace(s[j - 1]);
    assert n <= i;
    ShiftLastToken(s, n, i, j);
  }

  /**
   * `s[q0 + 1..q1]` lies between the first occurrence of `c` (at `q0`) and the
   * next one, or the end of `s` when there is no other.
   */
  ghost predicate FirstDelimited(s: string, c: char, q0: nat, q1: nat) {
    && q0 < q1 <= |s|
    && s[q0] == c
    && (forall k :: 0 <= k < q0 ==> s[k] != c)
    && (forall k :: q0 < k < q1 ==> s[k] != c)
    && (q1 == |s| || s[q1] == c)
  }

  /** `s.split(c)[1]` exists exactly when `c` occurs in `s`, and it is the first delimited piece. */
  lemma SecondPiece(s: string, c: char)
    ensures c in s <==> exists q0: nat, q1: nat :: FirstDelimited(s, c, q0, q1)
    ensures forall q0: nat, q1: nat :: FirstDelimited(s, c, q0, q1) ==> |SplitOn(s, c)| >= 2 && s[q0 + 1..q1] == SplitOn(s, c)[1]
  {
    SplitOnPieces(s, c);
    if c in s {
      var parts := SplitOn(s, c);
      var p0 := |parts[0]|;
      var p1 := p0 + 1 + |parts[1]|;
      FirstTwoPieces(s, c);
      forall q0: nat, q1: nat | FirstDelimited(s, c, q0, q1) ensures q0 == p0 && q1 == p1 {
        FirstDelimitedUnique(s, c, q0, q1, p0, p1);
      }
    }
  }

  /** The first two pieces of a split that found the separator lie around its first occurrence. */
  lemma FirstTwoPieces(s: string, c: char)
    requires |SplitOn(s, c)| >= 2
    requires forall k :: 0 <= k < |SplitOn(s, c)| ==> c !in SplitOn(s, c)[k]
    ensures var parts := SplitOn(s, c);
      var p0 := |parts[0]|;
      var p1 := p0 + 1 + |parts[1]|;
      FirstDelimited(s, c, p0, p1) && s[p0 + 1..p1] == parts[1]
  {
    var parts := SplitOn(s, c);
    var p0 := |parts[0]|;
    var p1 := p0 + 1 + |parts[1]|;
    var tail := if |parts| == 2 then [] else [c] + Join(parts[2..], [c]);
    assert Join(parts[1..], [c]) == parts[1] + tail by {
      if |parts| > 2 { assert parts[1..][1..] == parts[2..]; }
    }
    assert s == parts[0] + [c] + parts[1] + tail;
    assert s[..p0] == parts[0];
    assert s[p0 + 1..p1] == parts[1];
    assert c !in parts[0] && c !in parts[1];
  }

  /** The first occurrence of `c` and the next one are unique. */
  lemma FirstDelimitedUnique(s: string, c: char, q0: nat, q1: nat, p0: nat, p1: nat)
    requires FirstDelimited(s, c, q0, q1) && FirstDelimited(s, c, p0, p1)
    ensures q0 == p0 && q1 == p1
  {
  }

  /** A non-empty string of ASCII digits. */
  predicate IsDigits(s: string) {
    |s| >= 1 && forall k :: 0 <= k < |s| ==> IsDigit(s[k])
  }

  /**
   * The default limit on the number of digits `int(...)` and `str(...)` convert
   * in base 10 (`sys.get_int_max_str_digits()`, Python 3.11 and later, and the
   * 3.10.7 and 3.9.14 security releases); longer inputs raise `ValueError`.
   */
  const MaxIntDigits: nat := 4300

  /** At most `MaxIntDigits` digits; a leading sign does not count. */
  predicate WithinDigitLimit(s: string) {
    |s| <= MaxIntDigits || (|s| == MaxIntDigits + 1 && (s[0] == '+' || s[0] == '-'))
  }

  /** What `int(...)` accepts here: an optional sign followed by ASCII digits, within the limit. */
  predicate IsIntLiteral(s: string) {
    (IsDigits(s) || (|s| >= 2 && (s[0] == '+' || s[0] == '-') && IsDigits(s[1..])))
    && WithinDigitLimit(s)
  }

  /** The value of a digit string read in base 10. */
  function DigitsValue(ds: string): nat
    requires forall k :: 0 <= k < |ds| ==> IsDigit(ds[k])
    decreases |ds|
  {
    if ds == [] then 0
    else
      assert IsDigit(ds[|ds| - 1]);
      DigitsValue(ds[..|ds| - 1]) * 10 + (ds[|ds| - 1] as int - '0' as int)
  }

  /** `int(s)`, with the `ValueError` path as `None`. */
  function ParseInt(s: string): (r: Option<int>)
    ensures r.Some? <==> IsIntLiteral(s)
  {
    if !WithinDigitLimit(s) then None
    else if IsDigits(s) then Some(DigitsValue(s))
    else if |s| >= 2 && s[0] == '-' && IsDigits(s[1..]) then Some(0 - DigitsValue(s[1..]))
    else if |s| >= 2 && s[0] == '+' && IsDigits(s[1..]) then Some(DigitsValue(s[1..]))
    else None
  }

  /** Python's `str(n)` for a natural number. */
  function Decimal(n: nat): (ds: string)
    decreases n
  {
    if n < 10 then [('0' as int + n) as char]
    else Decimal(n / 10) + [('0' as int + n % 10) as char]
  }

  /** `str(n)` for any integer. */
  function IntToString(n: int): string {
    if n < 0 then "-" + Decimal(-n) else Decimal(n)
  }

  lemma {:induction false} DecimalDigits(n: nat)
    ensures IsDigits(Decimal(n))
    ensures DigitsValue(Decimal(n)) == n
    decreases n
  {
    var ds := Decimal(n);
    if n >= 10 {
      DecimalDigits(n / 10);
      assert ds[..|ds| - 1] == Decimal(n / 10);
    }
  }

  /**
   * `int(str(n)) == n`: parsing undoes formatting, for every integer that
   * `str(n)` itself formats (at most `MaxIntDigits` digits).
   */
  lemma ParseIntRoundTrip(n: int)
    requires |Decimal(if n < 0 then -n else n)| <= MaxIntDigits
    ensures ParseInt(IntToString(n)) == Some(n)
  {
    if n < 0 {
      DecimalDigits(-n);
      assert IntToString(n)[1..] == Decimal(-n);
    } else {
      DecimalDigits(n);
    }
  }
}
