/**
 * `parse_http_features`: the method, path, status and protocol of a log line,
 * or the sentinel `("UNKNOWN", "/", 0, "N/A")` when any step of the extraction
 * raises. The `try` body is `TryParse`, whose `None` is the exception path.
 */
module HttpParser {
  import opened Options
  import opened Text

  datatype Protocol = HTTP | HTTPS | NotApplicable

  datatype ParsedRequest = ParsedRequest(httpMethod: string, path: string, status: int, protocol: Protocol)

  /** What every failure collapses to, as one unit. */
  const Sentinel := ParsedRequest("UNKNOWN", "/", 0, NotApplicable)

  /**
   * `log.split('"')[1]` (IndexError without a quote), unpacked into three
   * whitespace tokens (ValueError otherwise), `int(log.split()[-1])`
   * (ValueError on a non-integer), and the protocol from a substring test.
   */
  function TryParse(log: string): Option<ParsedRequest> {
    var parts := SplitOn(log, '"');
    if |parts| < 2 then None
    else
      var request := Words(parts[1]);
      if |request| != 3 then None
      else
        var tokens := Words(log);
        if |tokens| == 0 then None
        else
          match ParseInt(tokens[|tokens| - 1])
          case None => None
          case Some(status) =>
            Some(ParsedRequest(request[0], request[1], status,
                               if Contains(log, "HTTPS") then HTTPS else HTTP))
  }

  /** The quoted request of `log` (between the first quote and the next, or the end) has three tokens. */
  ghost predicate HasThreePartRequest(log: string) {
    exists q0: nat, q1: nat :: FirstDelimited(log, '"', q0, q1) && |Words(log[q0 + 1..q1])| == 3
  }

  /** The last whitespace-separated token of `log` is an integer. */
  ghost predicate EndsInInteger(log: string) {
    exists i: nat, j: nat :: LastTokenAt(log, i, j) && IsIntLiteral(log[i..j])
  }

  /** `parse_http_features(log)`: the parsed fields, or the sentinel when extraction raises. */
  function ParseHttpFeatures(log: string): ParsedRequest {
    TryParse(log).GetOr(Sentinel)
  }

  /**
   * The parser never fails and never mixes: it returns either every field
   * parsed or the whole sentinel, and it degrades exactly when the line has no
   * quote, its quoted request is not three tokens, or its last token is not an
   * integer.
   */
  lemma ParseOutcomes(log: string)
    ensures ParseHttpFeatures(log).protocol == NotApplicable ==> ParseHttpFeatures(log) == Sentinel
    ensures ParseHttpFeatures(log).protocol != NotApplicable <==> HasThreePartRequest(log) && EndsInInteger(log)
  {
    var parts := SplitOn(log, '"');
    SecondPiece(log, '"');
    LastWord(log);
    if HasThreePartRequest(log) && EndsInInteger(log) {
      var q0: nat, q1: nat :| FirstDelimited(log, '"', q0, q1) && |Words(log[q0 + 1..q1])| == 3;
      var i: nat, j: nat :| LastTokenAt(log, i, j) && IsIntLiteral(log[i..j]);
      assert TryParse(log).Some?;
    }
    if TryParse(log).Some? {
      var q0: nat, q1: nat :| FirstDelimited(log, '"', q0, q1);
      assert Words(log[q0 + 1..q1]) == Words(parts[1]);
      var i: nat, j: nat :| LastTokenAt(log, i, j);
      assert HasThreePartRequest(log);
      assert EndsInInteger(log);
    }
  }

  /**
   * On success the method and path are the first two tokens of the quoted
   * request, the status is the value of the line's last token, and the
   * protocol is HTTPS exactly when "HTTPS" occurs anywhere in the line.
   */
  lemma ParsedFields(log: string)
    requires ParseHttpFeatures(log).protocol != NotApplicable
    ensures var r := ParseHttpFeatures(log);
      && (forall q0: nat, q1: nat :: FirstDelimited(log, '"', q0, q1) ==>
            |Words(log[q0 + 1..q1])| == 3
            && Words(log[q0 + 1..q1])[0] == r.httpMethod && Words(log[q0 + 1..q1])[1] == r.path)
      && (forall i: nat, j: nat :: LastTokenAt(log, i, j) ==> ParseInt(log[i..j]) == Some(r.status))
      && (r.protocol == HTTPS <==> Contains(log, "HTTPS"))
  {
    var parts := SplitOn(log, '"');
    SecondPiece(log, '"');
    LastWord(log);
  }

  /**
   * The same fields without `str.split()`: the quoted request holds exactly
   * three maximal non-whitespace runs, the method is the first of them and
   * the path the second.
   */
  lemma ParsedRuns(log: string)
    requires ParseHttpFeatures(log).protocol != NotApplicable
    ensures var r := ParseHttpFeatures(log);
      forall q0: nat, q1: nat :: FirstDelimited(log, '"', q0, q1) ==>
        var request := log[q0 + 1..q1];
        && WordStarts(request, |request|) == 3
        && (forall i: nat, j: nat :: WordAt(request, i, j) && WordStarts(request, i) == 0 ==> request[i..j] == r.httpMethod)
        && (forall i: nat, j: nat :: WordAt(request, i, j) && WordStarts(request, i) == 1 ==> request[i..j] == r.path)
  {
    ParsedFields(log);
    forall q0: nat, q1: nat | FirstDelimited(log, '"', q0, q1) {
      WordsAreRuns(log[q0 + 1..q1]);
    }
  }
}
