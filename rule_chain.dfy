/** A field's schema as an ordered chain of refinements: each rule pairs a
    predicate on the value with the message reported when it fails.

    The schema library runs every refinement of a chain (a failed refinement
    marks the result dirty but does not stop the chain) and collects one
    issue per failing rule, in order; the form then shows the first issue of
    each field. `Issues` is the collected list, `FirstFailure` the
    short-circuit reading "the first failing rule decides the message", and
    `FirstFailureIsFirstIssue` shows that the two agree. */
module RuleChain {

  datatype Option<+T> = None | Some(value: T)

  /** One refinement: a predicate on values of type T and its message. */
  datatype Rule<-T> = Rule(holds: T -> bool, message: string)

  /** Rule i fails on v and every rule before it passes. */
  ghost predicate FailsFirstAt<T>(rules: seq<Rule<T>>, v: T, i: int) {
    && 0 <= i < |rules|
    && !rules[i].holds(v)
    && forall j | 0 <= j < i :: rules[j].holds(v)
  }

  /** The messages of all failing rules, in the chain's order. */
  function Issues<T>(rules: seq<Rule<T>>, v: T): (msgs: seq<string>)
    ensures |msgs| <= |rules|
    ensures msgs == [] <==> forall i | 0 <= i < |rules| :: rules[i].holds(v)
    ensures forall m | m in msgs :: exists i | 0 <= i < |rules| :: !rules[i].holds(v) && rules[i].message == m
    decreases |rules|
  {
    if rules == [] then []
    else
      var rest := Issues(rules[1..], v);
      assert forall m | m in rest :: exists i | 1 <= i < |rules| :: !rules[i].holds(v) && rules[i].message == m by {
        forall m | m in rest ensures exists i | 1 <= i < |rules| :: !rules[i].holds(v) && rules[i].message == m {
          var k :| 0 <= k < |rules[1..]| && !rules[1..][k].holds(v) && rules[1..][k].message == m;
          assert rules[k + 1] == rules[1..][k];
        }
      }
      (if rules[0].holds(v) then [] else [rules[0].message]) + rest
  }

  /** The number of rules of the chain that fail on v. */
  function FailingCount<T>(rules: seq<Rule<T>>, v: T): (n: nat)
    ensures n <= |rules|
    ensures n == 0 <==> forall i | 0 <= i < |rules| :: rules[i].holds(v)
    ensures n == |rules| <==> forall i | 0 <= i < |rules| :: !rules[i].holds(v)
    decreases |rules|
  {
    if rules == [] then 0
    else
      var rest := FailingCount(rules[1..], v);
      assert forall i | 1 <= i < |rules| :: rules[i] == rules[1..][i - 1];
      (if rules[0].holds(v) then 0 else 1) + rest
  }

  /** One issue per failing rule and no more: every failing rule's message is
      reported, and there are exactly as many issues as failing rules. */
  lemma {:induction false} IssuesReportEveryFailure<T>(rules: seq<Rule<T>>, v: T)
    ensures |Issues(rules, v)| == FailingCount(rules, v)
    ensures forall i | 0 <= i < |rules| :: !rules[i].holds(v) ==> rules[i].message in Issues(rules, v)
    decreases |rules|
  {
    if rules != [] {
      IssuesReportEveryFailure(rules[1..], v);
      forall i | 1 <= i < |rules| && !rules[i].holds(v)
        ensures rules[i].message in Issues(rules, v)
      {
        assert rules[1..][i - 1] == rules[i];
      }
    }
  }

  /** Evaluates the chain in order and stops at the first failing rule. */
  function FirstFailure<T>(rules: seq<Rule<T>>, v: T): (r: Option<string>)
    ensures r == None <==> forall i | 0 <= i < |rules| :: rules[i].holds(v)
    ensures r != None ==> exists i :: FailsFirstAt(rules, v, i) && r == Some(rules[i].message)
    decreases |rules|
  {
    if rules == [] then None
    else if !rules[0].holds(v) then
      assert FailsFirstAt(rules, v, 0);
      Some(rules[0].message)
    else
      var r := FirstFailure(rules[1..], v);
      assert r != None ==> exists i :: FailsFirstAt(rules, v, i) && r == Some(rules[i].message) by {
        if r != None {
          var k :| FailsFirstAt(rules[1..], v, k) && r == Some(rules[1..][k].message);
          assert FailsFirstAt(rules, v, k + 1);
        }
      }
      r
  }

  /** The failing rule that comes first decides the outcome, whatever the
      rules after it say. */
  lemma {:induction false} FirstFailureAt<T>(rules: seq<Rule<T>>, v: T, i: int)
    requires FailsFirstAt(rules, v, i)
    ensures FirstFailure(rules, v) == Some(rules[i].message)
    decreases |rules|
  {
    if i > 0 {
      assert rules[0].holds(v);
      assert FailsFirstAt(rules[1..], v, i - 1);
      FirstFailureAt(rules[1..], v, i - 1);
    }
  }

  /** The first of a list of messages, the one a form shows. */
  function Head(msgs: seq<string>): Option<string> {
    if msgs == [] then None else Some(msgs[0])
  }

  /** The short-circuit outcome is the first collected issue. */
  lemma {:induction false} FirstFailureIsFirstIssue<T>(rules: seq<Rule<T>>, v: T)
    ensures FirstFailure(rules, v) == Head(Issues(rules, v))
    decreases |rules|
  {
    if rules != [] && rules[0].holds(v) {
      FirstFailureIsFirstIssue(rules[1..], v);
    }
  }

  /** A chain of one rule reports its message exactly when the rule fails. */
  lemma IssuesOfOne<T>(rule: Rule<T>, v: T)
    ensures Issues([rule], v) == if rule.holds(v) then [] else [rule.message]
  {
    assert [rule][1..] == [];
  }
}
