/**
 * The rule layer that explains a verdict: `get_reason`, which lists the rules
 * a request trips in a fixed order (falling back to "Statistical anomaly"),
 * and `calculate_confidence`, which scores a finding from its reason count.
 */
module Reasoning {
  import opened Text

  datatype Rule = SensitiveEndpoint | PathTraversal | ErrorResponse | HighRiskMethod

  /** The rules in the order `get_reason` tests them. */
  const RuleOrder: seq<Rule> := [SensitiveEndpoint, PathTraversal, ErrorResponse, HighRiskMethod]

  const SensitivePaths: seq<string> := ["/admin", "/login", "/wp-admin"]
  const HighRiskMethods: seq<string> := ["POST", "PUT", "DELETE"]
  const Fallback := "Statistical anomaly"

  function Message(rule: Rule): string {
    match rule
    case SensitiveEndpoint => "Sensitive endpoint access"
    case PathTraversal => "Path traversal attempt"
    case ErrorResponse => "Error response pattern"
    case HighRiskMethod => "High-risk HTTP method"
  }

  /** Whether `rule` applies to a request. */
  predicate Fires(rule: Rule, httpMethod: string, path: string, status: int) {
    match rule
    case SensitiveEndpoint => path in SensitivePaths
    case PathTraversal => Contains(path, "..")
    case ErrorResponse => status >= 400
    case HighRiskMethod => httpMethod in HighRiskMethods
  }

  /** The rules of `rules` that fire, in the order of `rules`. */
  function Fired(rules: seq<Rule>, httpMethod: string, path: string, status: int): seq<Rule>
    decreases |rules|
  {
    if rules == [] then []
    else
      (if Fires(rules[0], httpMethod, path, status) then [rules[0]] else [])
      + Fired(rules[1..], httpMethod, path, status)
  }

  /** `[rule]` when it fires, else nothing. */
  function IfFires(rule: Rule, httpMethod: string, path: string, status: int): seq<Rule> {
    if Fires(rule, httpMethod, path, status) then [rule] else []
  }

  /** The four rules checked one after another, as `get_reason` does. */
  lemma FiredInSequence(httpMethod: string, path: string, status: int)
    ensures Fired(RuleOrder, httpMethod, path, status)
         == IfFires(SensitiveEndpoint, httpMethod, path, status) + IfFires(PathTraversal, httpMethod, path, status)
          + IfFires(ErrorResponse, httpMethod, path, status) + IfFires(HighRiskMethod, httpMethod, path, status)
  {
    var rest := RuleOrder[1..];
    assert rest == [PathTraversal, ErrorResponse, HighRiskMethod];
    assert rest[1..] == [ErrorResponse, HighRiskMethod];
    assert rest[1..][1..] == [HighRiskMethod];
    assert rest[1..][1..][1..] == [];
  }

  function Messages(rules: seq<Rule>): (ms: seq<string>)
    ensures |ms| == |rules|
    ensures forall k :: 0 <= k < |rules| ==> ms[k] == Message(rules[k])
  {
    seq(|rules|, k requires 0 <= k < |rules| => Message(rules[k]))
  }

  /** The reasons a request is flagged: the messages of the rules that fire, in rule order, or the fallback. */
  function Reasons(httpMethod: string, path: string, status: int): seq<string> {
    var fired := Fired(RuleOrder, httpMethod, path, status);
    if fired == [] then [Fallback] else Messages(fired)
  }

  /** `get_reason(method, path, status)`: one conditional append per rule, then the fallback. */
  method GetReason(httpMethod: string, path: string, status: int) returns (reasons: seq<string>)
    ensures reasons == Reasons(httpMethod, path, status)
  {
    ghost var fired: seq<Rule> := [];
    reasons := [];
    if path in SensitivePaths {
      reasons := reasons + ["Sensitive endpoint access"];
      fired := fired + [SensitiveEndpoint];
    }
    assert fired == IfFires(SensitiveEndpoint, httpMethod, path, status) && reasons == Messages(fired);
    if Contains(path, "..") {
      MessagesSnoc(fired, PathTraversal);
      reasons := reasons + ["Path traversal attempt"];
      fired := fired + [PathTraversal];
    }
    assert fired == IfFires(SensitiveEndpoint, httpMethod, path, status)
                  + IfFires(PathTraversal, httpMethod, path, status);
    assert reasons == Messages(fired);
    if status >= 400 {
      MessagesSnoc(fired, ErrorResponse);
      reasons := reasons + ["Error response pattern"];
      fired := fired + [ErrorResponse];
    }
    assert fired == IfFires(SensitiveEndpoint, httpMethod, path, status)
                  + IfFires(PathTraversal, httpMethod, path, status)
                  + IfFires(ErrorResponse, httpMethod, path, status);
    assert reasons == Messages(fired);
    if httpMethod in HighRiskMethods {
      MessagesSnoc(fired, HighRiskMethod);
      reasons := reasons + ["High-risk HTTP method"];
      fired := fired + [HighRiskMethod];
    }
    FiredInSequence(httpMethod, path, status);
    assert fired == Fired(RuleOrder, httpMethod, path, status);
    assert reasons == Messages(fired);
    if reasons == [] {
      reasons := reasons + ["Statistical anomaly"];
    }
  }

  lemma MessagesSnoc(rules: seq<Rule>, rule: Rule)
    ensures Messages(rules + [rule]) == Messages(rules) + [Message(rule)]
  {
  }

  /** `calculate_confidence(reasons, rejected)`: 100 for a rejection, else 40 plus 15 per reason, capped at 98. */
  function CalculateConfidence(reasons: seq<string>, rejected: bool): (c: int)
    ensures rejected ==> c == 100
    ensures !rejected ==> 40 <= c <= 98
    ensures !rejected && |reasons| <= 3 ==> c == 40 + 15 * |reasons|
    ensures !rejected && |reasons| >= 4 ==> c == 98
  {
    if rejected then 100
    else
      var base := 40 + |reasons| * 15;
      if base < 98 then base else 98
  }

  /** More reasons never lower the score of a classified finding. */
  lemma ConfidenceMonotone(r1: seq<string>, r2: seq<string>)
    requires |r1| <= |r2|
    ensures CalculateConfidence(r1, false) <= CalculateConfidence(r2, false)
  {
  }

  /** The rules reported are the listed rules that fire, and there are no more of them than listed. */
  lemma {:induction false} FiredMembers(rules: seq<Rule>, httpMethod: string, path: string, status: int)
    ensures |Fired(rules, httpMethod, path, status)| <= |rules|
    ensures forall r :: r in Fired(rules, httpMethod, path, status) <==> r in rules && Fires(r, httpMethod, path, status)
    decreases |rules|
  {
    if rules != [] {
      FiredMembers(rules[1..], httpMethod, path, status);
      assert forall r :: r in rules <==> r == rules[0] || r in rules[1..];
    }
  }

  /** Where a reason stands in the fixed rule order; the fallback comes last. */
  function MessageRank(reason: string): nat {
    if reason == Message(SensitiveEndpoint) then 0
    else if reason == Message(PathTraversal) then 1
    else if reason == Message(ErrorResponse) then 2
    else if reason == Message(HighRiskMethod) then 3
    else 4
  }

  /** The position of each rule in `RuleOrder`. */
  function Rank(rule: Rule): nat {
    match rule
    case SensitiveEndpoint => 0
    case PathTraversal => 1
    case ErrorResponse => 2
    case HighRiskMethod => 3
  }

  /** The four messages and the fallback are told apart by their first two characters. */
  lemma RankOfMessage(rule: Rule)
    ensures MessageRank(Message(rule)) == Rank(rule)
    ensures MessageRank(Fallback) == 4
  {
    assert Message(SensitiveEndpoint)[0] == 'S' && Message(SensitiveEndpoint)[1] == 'e';
    assert Message(PathTraversal)[0] == 'P';
    assert Message(ErrorResponse)[0] == 'E';
    assert Message(HighRiskMethod)[0] == 'H';
    assert Fallback[0] == 'S' && Fallback[1] == 't';
  }

  predicate InRuleOrder(rules: seq<Rule>) {
    forall i, j :: 0 <= i < j < |rules| ==> MessageRank(Message(rules[i])) < MessageRank(Message(rules[j]))
  }

  lemma {:induction false} FiredKeepsOrder(rules: seq<Rule>, httpMethod: string, path: string, status: int)
    requires InRuleOrder(rules)
    ensures InRuleOrder(Fired(rules, httpMethod, path, status))
    decreases |rules|
  {
    if rules != [] {
      var rest := Fired(rules[1..], httpMethod, path, status);
      FiredKeepsOrder(rules[1..], httpMethod, path, status);
      FiredMembers(rules[1..], httpMethod, path, status);
      forall r | r in rest ensures MessageRank(Message(rules[0])) < MessageRank(Message(r)) {
        var k :| 0 <= k < |rules[1..]| && rules[1..][k] == r;
        assert rules[k + 1] == r;
      }
    }
  }

  lemma EveryRuleListed(rule: Rule)
    ensures rule in RuleOrder
  {
    match rule
    case SensitiveEndpoint => assert RuleOrder[0] == rule;
    case PathTraversal => assert RuleOrder[1] == rule;
    case ErrorResponse => assert RuleOrder[2] == rule;
    case HighRiskMethod => assert RuleOrder[3] == rule;
  }

  /** A rule's message is among the messages of a rule list exactly when the rule is. */
  lemma MessageIn(rules: seq<Rule>, rule: Rule)
    ensures Message(rule) in Messages(rules) <==> rule in rules
  {
    var ms := Messages(rules);
    assert rule in rules ==> Message(rule) in ms by {
      if rule in rules {
        var k :| 0 <= k < |rules| && rules[k] == rule;
        assert ms[k] == Message(rule);
      }
    }
    assert Message(rule) in ms ==> rule in rules by {
      if Message(rule) in ms {
        var k :| 0 <= k < |ms| && ms[k] == Message(rule);
        RankOfMessage(rules[k]);
        RankOfMessage(rule);
        assert rules[k] == rule;
      }
    }
  }

  /** Each rule's message is among the reasons exactly when the rule fires. */
  lemma ReasonsMatchRules(httpMethod: string, path: string, status: int, rule: Rule)
    ensures Message(rule) in Reasons(httpMethod, path, status) <==> Fires(rule, httpMethod, path, status)
  {
    var fired := Fired(RuleOrder, httpMethod, path, status);
    FiredMembers(RuleOrder, httpMethod, path, status);
    EveryRuleListed(rule);
    MessageIn(fired, rule);
  }

  /**
   * The reason list holds one to four entries, and "Statistical anomaly" is in
   * it exactly when no rule fires, and then it is the only entry.
   */
  lemma ReasonsFallback(httpMethod: string, path: string, status: int)
    ensures var reasons := Reasons(httpMethod, path, status);
      && 1 <= |reasons| <= 4
      && (Fallback in reasons <==> forall rule :: !Fires(rule, httpMethod, path, status))
      && (Fallback in reasons ==> reasons == [Fallback])
  {
    var fired := Fired(RuleOrder, httpMethod, path, status);
    var reasons := Reasons(httpMethod, path, status);
    assert 1 <= |reasons| <= 4 by {
      FiredMembers(RuleOrder, httpMethod, path, status);
    }
    assert Fallback in reasons ==> reasons == [Fallback] by {
      if fired != [] {
        forall k | 0 <= k < |reasons| ensures MessageRank(reasons[k]) < 4 {
          RankOfMessage(fired[k]);
        }
        RankOfMessage(fired[0]);
      }
    }
    assert reasons == [Fallback] <==> forall rule :: !Fires(rule, httpMethod, path, status) by {
      FiredMembers(RuleOrder, httpMethod, path, status);
      if fired != [] {
        assert Fires(fired[0], httpMethod, path, status);
      } else {
        forall rule ensures !Fires(rule, httpMethod, path, status) {
          EveryRuleListed(rule);
        }
      }
    }
  }

  /** The reasons come in the fixed rule order. */
  lemma ReasonsOrdered(httpMethod: string, path: string, status: int)
    ensures var reasons := Reasons(httpMethod, path, status);
      forall i, j :: 0 <= i < j < |reasons| ==> MessageRank(reasons[i]) < MessageRank(reasons[j])
  {
    assert InRuleOrder(RuleOrder) by {
      forall i, j | 0 <= i < j < |RuleOrder| ensures MessageRank(Message(RuleOrder[i])) < MessageRank(Message(RuleOrder[j])) {
        RankOfMessage(RuleOrder[i]);
        RankOfMessage(RuleOrder[j]);
      }
    }
    FiredKeepsOrder(RuleOrder, httpMethod, path, status);
  }

  /** A request for POST /admin answered 403 trips three rules and scores 85. */
  lemma AdminPostForbidden()
    ensures Reasons("POST", "/admin", 403)
         == ["Sensitive endpoint access", "Error response pattern", "High-risk HTTP method"]
    ensures CalculateConfidence(Reasons("POST", "/admin", 403), false) == 85
  {
    FiredInSequence("POST", "/admin", 403);
    assert !Contains("/admin", "..") by {
      forall i: nat | i <= 6 ensures !OccursAt("/admin", "..", i) {
        if i + 2 <= 6 {
          assert "/admin"[i..i + 2][0] == "/admin"[i];
        }
      }
    }
  }

  /** A path with ".." anywhere trips the traversal rule whatever the method and status. */
  lemma TraversalAnywhere(httpMethod: string, path: string, status: int)
    requires Contains(path, "..")
    ensures "Path traversal attempt" in Reasons(httpMethod, path, status)
  {
    ReasonsMatchRules(httpMethod, path, status, PathTraversal);
  }

  /** For example "/files/../etc/passwd", with any method and status. */
  lemma TraversalExample(httpMethod: string, status: int)
    ensures "Path traversal attempt" in Reasons(httpMethod, "/files/../etc/passwd", status)
  {
    assert OccursAt("/files/../etc/passwd", "..", 7);
    TraversalAnywhere(httpMethod, "/files/../etc/passwd", status);
  }
}
