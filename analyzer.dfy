/**
 * `analyze_logs`: one finding per submitted line. Lines that do not match the
 * access-log pattern are rejected outright; the valid ones go through the
 * anomaly cascade together and are then explained by the rule layer.
 */
module Analyzer {
  import opened Text
  import opened Sequences
  import opened LogValidator
  import opened HttpParser
  import opened Reasoning
  import opened Cascade

  datatype Status = Rejected | Labelled(verdict: Label)

  /** One entry of the result list: the line, its verdict, protocol, reason text and confidence. */
  datatype Finding = Finding(log: string, status: Status, protocol: Protocol, reason: string, confidence: int)

  const RejectReason := "Invalid or unsupported log format"

  predicate IsRejectedLog(log: string) { !IsValidLog(log) }

  function RejectedFinding(log: string): Finding {
    Finding(log, Rejected, NotApplicable, RejectReason, CalculateConfidence([], true))
  }

  /** The finding for a valid line that the cascade labelled `verdict`. */
  function ClassifiedFinding(log: string, verdict: Label): Finding {
    var req := ParseHttpFeatures(log);
    var reasons := Reasons(req.httpMethod, req.path, req.status);
    Finding(log, Labelled(verdict), req.protocol, Join(reasons, ", "), CalculateConfidence(reasons, false))
  }

  function RejectedFindings(logs: seq<string>): (fs: seq<Finding>)
    ensures |fs| == |logs|
    ensures forall k :: 0 <= k < |logs| ==> fs[k] == RejectedFinding(logs[k])
  {
    seq(|logs|, k requires 0 <= k < |logs| => RejectedFinding(logs[k]))
  }

  /** The rejected findings after one more line. */
  lemma RejectedStep(prefix: seq<string>, log: string)
    ensures RejectedFindings(RejectedLines(prefix + [log]))
         == RejectedFindings(RejectedLines(prefix)) + (if IsValidLog(log) then [] else [RejectedFinding(log)])
  {
    FilterSnoc(prefix, log, IsRejectedLog);
    if !IsValidLog(log) {
      assert RejectedLines(prefix + [log]) == RejectedLines(prefix) + [log];
      RejectedFindingsSnoc(RejectedLines(prefix), log);
    }
  }

  lemma RejectedFindingsSnoc(logs: seq<string>, log: string)
    ensures RejectedFindings(logs + [log]) == RejectedFindings(logs) + [RejectedFinding(log)]
  {
  }

  /** The findings of the first `n` valid lines, each with its label. */
  function ClassifiedFindings(logs: seq<string>, labels: seq<Label>, n: nat): (fs: seq<Finding>)
    requires |labels| == |logs| && n <= |logs|
    ensures |fs| == n
  {
    if n == 0 then []
    else ClassifiedFindings(logs, labels, n - 1) + [ClassifiedFinding(logs[n - 1], labels[n - 1])]
  }

  /** One more valid line adds its finding at the end. */
  lemma ClassifiedFindingsStep(logs: seq<string>, labels: seq<Label>, i: nat, finding: Finding)
    requires |labels| == |logs| && i < |logs|
    requires finding == ClassifiedFinding(logs[i], labels[i])
    ensures ClassifiedFindings(logs, labels, i + 1) == ClassifiedFindings(logs, labels, i) + [finding]
  {
  }

  /** The `k`-th classified finding is that of the `k`-th valid line and its label. */
  lemma {:induction false} ClassifiedFindingAt(logs: seq<string>, labels: seq<Label>, n: nat, k: nat)
    requires |labels| == |logs| && k < n <= |logs|
    ensures ClassifiedFindings(logs, labels, n)[k] == ClassifiedFinding(logs[k], labels[k])
  {
    var front := ClassifiedFindings(logs, labels, n - 1);
    var last := ClassifiedFinding(logs[n - 1], labels[n - 1]);
    assert ClassifiedFindings(logs, labels, n) == front + [last];
    if k < n - 1 {
      ClassifiedFindingAt(logs, labels, n - 1, k);
      assert (front + [last])[k] == front[k];
    } else {
      assert k == n - 1;
      assert (front + [last])[k] == last;
    }
  }

  function ValidLines(raw: seq<string>): seq<string> { Filter(raw, IsValidLog) }
  function RejectedLines(raw: seq<string>): seq<string> { Filter(raw, IsRejectedLog) }

  /**
   * What `analyze_logs` returns: the rejected lines in input order, then,
   * when any line was valid, the valid lines in input order with the labels
   * the cascade gives them as one batch.
   */
  function Analyze(raw: seq<string>, m: Models): seq<Finding>
    requires WellFormed(m)
  {
    var rejected := RejectedFindings(RejectedLines(raw));
    var valid := ValidLines(raw);
    if valid == [] then rejected
    else rejected + ClassifiedFindings(valid, Labels(valid, m), |valid|)
  }

  /** What line `i` adds to each of the three accumulators of the validation loop. */
  lemma ValidateStep(raw: seq<string>, i: nat)
    requires i < |raw|
    ensures RejectedFindings(RejectedLines(raw[..i + 1]))
         == RejectedFindings(RejectedLines(raw[..i])) + (if IsValidLog(raw[i]) then [] else [RejectedFinding(raw[i])])
    ensures ValidLines(raw[..i + 1]) == ValidLines(raw[..i]) + (if IsValidLog(raw[i]) then [raw[i]] else [])
    ensures FilterIndices(raw[..i + 1], IsValidLog)
         == FilterIndices(raw[..i], IsValidLog) + (if IsValidLog(raw[i]) then [i] else [])
  {
    assert raw[..i + 1] == raw[..i] + [raw[i]];
    FilterSnoc(raw[..i], raw[i], IsValidLog);
    RejectedStep(raw[..i], raw[i]);
    FilterIndicesSnoc(raw[..i], raw[i], IsValidLog);
  }

  /**
   * Lines 96-107: the validation loop. Rejected lines get their finding at
   * once; valid lines are set aside with their input positions.
   */
  method ValidateLines(rawLogs: seq<string>) returns (results: seq<Finding>, validLogs: seq<string>, indexMap: seq<nat>)
    ensures results == RejectedFindings(RejectedLines(rawLogs))
    ensures validLogs == ValidLines(rawLogs)
    ensures indexMap == FilterIndices(rawLogs, IsValidLog)
  {
    results := [];
    validLogs := [];
    indexMap := [];
    for i := 0 to |rawLogs|
      invariant results == RejectedFindings(RejectedLines(rawLogs[..i]))
      invariant validLogs == ValidLines(rawLogs[..i])
      invariant indexMap == FilterIndices(rawLogs[..i], IsValidLog)
    {
      var log := rawLogs[i];
      ValidateStep(rawLogs, i);
      if IsValidLog(log) {
        validLogs := validLogs + [log];
        indexMap := indexMap + [i];
      } else {
        results := results + [RejectedFinding(log)];
      }
    }
    assert rawLogs[..|rawLogs|] == rawLogs;
  }

  /**
   * Lines 134-144: parse one valid line, explain it and score it. The finding
   * keeps the line and its verdict, carries the parsed protocol, is explained
   * by at least one reason and scores between 55 and 98; a line the parser
   * cannot read gets the fallback reason and 55.
   */
  method ClassifyLine(log: string, verdict: Label) returns (finding: Finding)
    ensures finding == ClassifiedFinding(log, verdict)
    ensures finding.log == log && finding.status == Labelled(verdict)
    ensures finding.protocol == ParseHttpFeatures(log).protocol
    ensures finding.reason != "" && 55 <= finding.confidence <= 98
    ensures finding.protocol == NotApplicable ==> finding.reason == Fallback && finding.confidence == 55
  {
    var req := ParseHttpFeatures(log);
    var reasons := GetReason(req.httpMethod, req.path, req.status);
    var confidence := CalculateConfidence(reasons, false);
    finding := Finding(log, Labelled(verdict), req.protocol, Join(reasons, ", "), confidence);
    ClassifiedFields(log, verdict);
    if req.protocol == NotApplicable {
      UnparsableValidLine(log, verdict);
    }
  }

  /** Lines 133-146: the valid lines' findings, in order, after the rejected ones. */
  method AppendClassified(results: seq<Finding>, validLogs: seq<string>, labels: seq<Label>) returns (out: seq<Finding>)
    requires |labels| == |validLogs|
    ensures out == results + ClassifiedFindings(validLogs, labels, |validLogs|)
  {
    out := results;
    ghost var classified := [];
    for i := 0 to |validLogs|
      invariant classified == ClassifiedFindings(validLogs, labels, i)
      invariant out == results + classified
    {
      var finding := ClassifyLine(validLogs[i], labels[i]);
      ClassifiedFindingsStep(validLogs, labels, i, finding);
      AppendAssoc(results, classified, [finding]);
      out := out + [finding];
      classified := classified + [finding];
    }
  }

  /** Lines 88-146: validate, return early when nothing is valid, label the batch, explain it. */
  method AnalyzeLogs(rawLogs: seq<string>, models: Models) returns (results: seq<Finding>)
    requires WellFormed(models)
    ensures results == Analyze(rawLogs, models)
  {
    var validLogs, indexMap;
    results, validLogs, indexMap := ValidateLines(rawLogs);
    if |validLogs| == 0 {
      return;
    }
    var labels := LabelBatch(validLogs, models);
    results := AppendClassified(results, validLogs, labels);
  }

  // Properties of the result list

  function LogsOf(fs: seq<Finding>): (logs: seq<string>)
    ensures |logs| == |fs|
    ensures forall k :: 0 <= k < |fs| ==> logs[k] == fs[k].log
  {
    seq(|fs|, k requires 0 <= k < |fs| => fs[k].log)
  }

  /** One finding per line: the rejected ones and the valid ones. */
  lemma AnalyzeLength(raw: seq<string>, m: Models)
    requires WellFormed(m)
    ensures |Analyze(raw, m)| == |RejectedLines(raw)| + |ValidLines(raw)|
  {
  }

  /** Where each part of the result list sits: the rejected findings first, then the classified ones. */
  lemma Layout(raw: seq<string>, m: Models, k: nat)
    requires WellFormed(m) && k < |RejectedLines(raw)| + |ValidLines(raw)|
    ensures var rejected := RejectedLines(raw);
      var valid := ValidLines(raw);
      var fs := Analyze(raw, m);
      && k < |fs|
      && (k < |rejected| ==> fs[k] == RejectedFinding(rejected[k]))
      && (k >= |rejected| ==> fs[k] == ClassifiedFinding(valid[k - |rejected|], Labels(valid, m)[k - |rejected|]))
  {
    var rejected := RejectedLines(raw);
    var valid := ValidLines(raw);
    if valid != [] {
      var classified := ClassifiedFindings(valid, Labels(valid, m), |valid|);
      assert Analyze(raw, m) == RejectedFindings(rejected) + classified;
      if k >= |rejected| {
        ClassifiedFindingAt(valid, Labels(valid, m), |valid|, k - |rejected|);
      }
    }
  }

  /** The line of the `k`-th finding. */
  lemma LayoutLog(raw: seq<string>, m: Models, k: nat)
    requires WellFormed(m) && k < |RejectedLines(raw)| + |ValidLines(raw)|
    ensures k < |Analyze(raw, m)|
    ensures Analyze(raw, m)[k].log == (RejectedLines(raw) + ValidLines(raw))[k]
    ensures k >= |RejectedLines(raw)| ==> Analyze(raw, m)[k].log == ValidLines(raw)[k - |RejectedLines(raw)|]
  {
    Layout(raw, m, k);
  }

  /** The status of the `k`-th finding, and the whole finding when it is a rejected one. */
  lemma LayoutStatus(raw: seq<string>, m: Models, k: nat)
    requires WellFormed(m) && k < |RejectedLines(raw)| + |ValidLines(raw)|
    ensures var rejected := RejectedLines(raw);
      && k < |Analyze(raw, m)|
      && (k < |rejected| ==> Analyze(raw, m)[k] == RejectedFinding(rejected[k]))
      && (k >= |rejected| ==> Analyze(raw, m)[k].status == Labelled(Labels(ValidLines(raw), m)[k - |rejected|]))
  {
    Layout(raw, m, k);
  }

  /**
   * Every submitted line gets exactly one finding: the result lists the
   * rejected lines and then the valid ones, each group in input order, and
   * as a multiset it is the input.
   */
  lemma EveryLineReported(raw: seq<string>, m: Models)
    requires WellFormed(m)
    ensures |Analyze(raw, m)| == |raw|
    ensures LogsOf(Analyze(raw, m)) == RejectedLines(raw) + ValidLines(raw)
    ensures multiset(LogsOf(Analyze(raw, m))) == multiset(raw)
  {
    var rejected := RejectedLines(raw);
    var valid := ValidLines(raw);
    FilterPartition(raw, IsValidLog, IsRejectedLog);
    AnalyzeLength(raw, m);
    var logs := LogsOf(Analyze(raw, m));
    forall k | 0 <= k < |logs| ensures logs[k] == (rejected + valid)[k] {
      LayoutLog(raw, m, k);
    }
  }

  /** A finding is Rejected exactly when its line does not match the log pattern. */
  lemma RejectedIffInvalid(raw: seq<string>, m: Models, k: nat)
    requires WellFormed(m) && k < |Analyze(raw, m)|
    ensures Analyze(raw, m)[k].status == Rejected <==> !IsValidLog(Analyze(raw, m)[k].log)
  {
    AnalyzeLength(raw, m);
    var r := |RejectedLines(raw)|;
    if k >= r {
      assert (RejectedLines(raw) + ValidLines(raw))[k] == ValidLines(raw)[k - r];
      FilterSatisfies(raw, IsValidLog, k - r);
    } else {
      assert (RejectedLines(raw) + ValidLines(raw))[k] == RejectedLines(raw)[k];
      FilterSatisfies(raw, IsRejectedLog, k);
    }
    LayoutLog(raw, m, k);
    LayoutStatus(raw, m, k);
  }

  /** No Labelled finding comes before a Rejected one. */
  lemma RejectedComeFirst(raw: seq<string>, m: Models, k: nat, l: nat)
    requires WellFormed(m) && k < l < |Analyze(raw, m)|
    requires Analyze(raw, m)[l].status == Rejected
    ensures Analyze(raw, m)[k].status == Rejected
  {
    AnalyzeLength(raw, m);
    LayoutStatus(raw, m, k);
    LayoutStatus(raw, m, l);
  }

  /** Lines 101-107: a rejected line is reported with no protocol, the fixed reason and full confidence. */
  lemma RejectedFields(raw: seq<string>, m: Models, k: nat)
    requires WellFormed(m) && k < |Analyze(raw, m)|
    requires Analyze(raw, m)[k].status == Rejected
    ensures var f := Analyze(raw, m)[k];
      f.protocol == NotApplicable && f.reason == RejectReason && f.confidence == 100
  {
    AnalyzeLength(raw, m);
    LayoutStatus(raw, m, k);
  }

  /**
   * A finding after the rejected ones reports the valid line at the same offset
   * in the batch, with the label the cascade gives that line within the batch.
   */
  lemma VerdictFromCascade(raw: seq<string>, m: Models, k: nat)
    requires WellFormed(m)
    requires |RejectedLines(raw)| <= k < |RejectedLines(raw)| + |ValidLines(raw)|
    ensures var j := k - |RejectedLines(raw)|;
      && k < |Analyze(raw, m)|
      && Analyze(raw, m)[k].log == ValidLines(raw)[j]
      && Analyze(raw, m)[k].status == Labelled(Labels(ValidLines(raw), m)[j])
  {
    Layout(raw, m, k);
  }

  lemma JoinKeepsFirst(parts: seq<string>, sep: string)
    requires |parts| >= 1
    ensures |Join(parts, sep)| >= |parts[0]|
  {
  }

  /**
   * A classified line is explained by at least one reason, so its reason text
   * is not empty and its confidence is between 55 and 98, rising by 15 with
   * each reason.
   */
  lemma ClassifiedFields(log: string, verdict: Label)
    ensures var f := ClassifiedFinding(log, verdict);
      var req := ParseHttpFeatures(log);
      var reasons := Reasons(req.httpMethod, req.path, req.status);
      && f.status == Labelled(verdict)
      && f.reason != ""
      && 55 <= f.confidence <= 98
      && (|reasons| <= 3 ==> f.confidence == 40 + 15 * |reasons|)
  {
    var req := ParseHttpFeatures(log);
    var reasons := Reasons(req.httpMethod, req.path, req.status);
    ReasonsFallback(req.httpMethod, req.path, req.status);
    assert reasons[0] != "" by {
      if reasons[0] != Fallback {
        assert reasons[0] == Message(Fired(RuleOrder, req.httpMethod, req.path, req.status)[0]);
      }
    }
    JoinKeepsFirst(reasons, ", ");
  }

  /**
   * A line that matches the log pattern but whose request does not split
   * into three words, or whose last word is not an integer, is still
   * classified: with no protocol, the fallback reason and confidence 55.
   */
  lemma UnparsableValidLine(log: string, verdict: Label)
    requires ParseHttpFeatures(log).protocol == NotApplicable
    ensures var f := ClassifiedFinding(log, verdict);
      f.protocol == NotApplicable && f.reason == Fallback && f.confidence == 55
  {
    ParseOutcomes(log);
    SentinelHasNoRule();
  }

  /** The placeholder request of an unparsable line trips no rule. */
  lemma SentinelHasNoRule()
    ensures Reasons(Sentinel.httpMethod, Sentinel.path, Sentinel.status) == [Fallback]
  {
    forall i: nat | i <= 1 ensures !OccursAt("/", "..", i) {
    }
    FiredInSequence(Sentinel.httpMethod, Sentinel.path, Sentinel.status);
  }

  /** When no line is valid the models are never consulted and every line is rejected. */
  lemma NoValidLineIgnoresModels(raw: seq<string>, m: Models, m': Models)
    requires WellFormed(m) && WellFormed(m')
    requires forall k :: 0 <= k < |raw| ==> !IsValidLog(raw[k])
    ensures Analyze(raw, m) == Analyze(raw, m')
    ensures forall f :: f in Analyze(raw, m) ==> f.status == Rejected
  {
    NoneValid(raw);
  }

  lemma {:induction false} NoneValid(raw: seq<string>)
    requires forall k :: 0 <= k < |raw| ==> !IsValidLog(raw[k])
    ensures ValidLines(raw) == []
    decreases |raw|
  {
    if raw != [] {
      NoneValid(raw[..|raw| - 1]);
    }
  }

  /**
   * The result does not keep the input order across the two groups: a valid
   * line followed by an invalid one is reported after it.
   */
  lemma RejectedReportedFirst(valid: string, invalid: string, m: Models)
    requires WellFormed(m)
    requires IsValidLog(valid) && !IsValidLog(invalid)
    ensures LogsOf(Analyze([valid, invalid], m)) == [invalid, valid]
  {
    TwoLineGroups(valid, invalid);
    EveryLineReported([valid, invalid], m);
  }

  lemma TwoLineGroups(valid: string, invalid: string)
    requires IsValidLog(valid) && !IsValidLog(invalid)
    ensures ValidLines([valid, invalid]) == [valid]
    ensures RejectedLines([valid, invalid]) == [invalid]
  {
    assert [] + [valid] == [valid];
    assert [valid] + [invalid] == [valid, invalid];
    FilterSnoc([], valid, IsValidLog);
    FilterSnoc([valid], invalid, IsValidLog);
    FilterSnoc([], valid, IsRejectedLog);
    FilterSnoc([valid], invalid, IsRejectedLog);
  }
}
