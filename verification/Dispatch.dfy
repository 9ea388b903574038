/** How the outcomes of the policies become one answer. The engine library is assumed
    to evaluate in order, to hand every output to the resulter, to stop after the
    breaker fired, and to answer with the first output the resulter accepted. */
module Dispatch {
  import opened Api
  import opened Evaluation
  import Ordering

  datatype Decision = Allow | Deny | Errored | NoMatch

  /** One policy at one request: its name, if it has one, and what it evaluates to. */
  datatype Candidate = Candidate(name: Option<string>, outcome: Evaluation)

  type Entry = (string, Decision)

  predicate Decisive(e: Evaluation) { e.result.Some? || e.error }

  predicate Breaks(e: Evaluation) { e.result.Some? }

  function Classify(e: Evaluation): Decision {
    if e.error then Errored
    else if e.result.None? then NoMatch
    else if e.result.value.denied then Deny
    else Allow
  }

  function PolicyName(name: Option<string>): string {
    if name.Some? && name.value != "" then name.value else "unknown"
  }

  /** What one evaluation is counted as, told from the policy and its outcome. */
  predicate Counts(c: Candidate, e: Entry) {
    && e.0 == (if c.name.Some? && c.name.value != "" then c.name.value else "unknown")
    && (e.1 == Errored <==> c.outcome.error)
    && (e.1 == NoMatch <==> !c.outcome.error && c.outcome.result.None?)
    && (e.1 == Deny <==> !c.outcome.error && c.outcome.result.Some? && c.outcome.result.value.denied)
  }

  class PolicyMetrics {
    var entries: seq<Entry>

    constructor ()
      ensures entries == []
    {
      entries := [];
    }

    /** The wrapped evaluation returns what the inner one returns and counts it once. */
    method Evaluate(c: Candidate) returns (out: Evaluation)
      modifies this
      ensures out == c.outcome
      ensures exists e :: Counts(c, e) && entries == old(entries) + [e]
      ensures entries == old(entries) + [(PolicyName(c.name), Classify(c.outcome))]
    {
      out := c.outcome;
      assert Counts(c, (PolicyName(c.name), Classify(out)));
      entries := entries + [(PolicyName(c.name), Classify(out))];
    }
  }

  /** The reference: evaluate every policy, then take the first that says anything. */
  function FirstDecisive(cs: seq<Candidate>): Evaluation {
    if cs == [] then NO_MATCH
    else if Decisive(cs[0].outcome) then cs[0].outcome
    else FirstDecisive(cs[1..])
  }

  /** How many policies are evaluated: all up to and including the first with a result. */
  function Evaluated(cs: seq<Candidate>): (n: nat)
    ensures n <= |cs|
    ensures forall i :: 0 <= i < n - 1 ==> cs[i].outcome.result.None?
    ensures n < |cs| ==> n > 0 && cs[n - 1].outcome.result.Some?
  {
    if cs == [] then 0
    else if Breaks(cs[0].outcome) then 1
    else 1 + Evaluated(cs[1..])
  }

  function Entries(cs: seq<Candidate>): (es: seq<Entry>)
    ensures |es| == |cs| && forall i :: 0 <= i < |cs| ==> Counts(cs[i], es[i])
  {
    seq(|cs|, i requires 0 <= i < |cs| => (PolicyName(cs[i].name), Classify(cs[i].outcome)))
  }

  /** Stopping early gives the answer of evaluating everything; the counted evaluations
      are exactly those up to and including the first policy with a result. */
  method Dispatch(cs: seq<Candidate>, metrics: PolicyMetrics) returns (r: Evaluation)
    modifies metrics
    ensures r == FirstDecisive(cs)
    ensures metrics.entries == old(metrics.entries) + Entries(cs[..Evaluated(cs)])
  {
    var accepted: Option<Evaluation> := None;
    var stop := false;
    var i := 0;
    while i < |cs| && !stop
      invariant 0 <= i <= |cs|
      invariant metrics.entries == old(metrics.entries) + Entries(cs[..i])
      invariant accepted.Some? ==> accepted.value == FirstDecisive(cs)
      invariant accepted.None? ==> FirstDecisive(cs) == FirstDecisive(cs[i..]) && !stop
      invariant if stop then i == Evaluated(cs) else Evaluated(cs) == i + Evaluated(cs[i..])
    {
      assert cs[i..][0] == cs[i] && cs[i..][1..] == cs[i + 1..];
      var out := metrics.Evaluate(cs[i]);
      assert Entries(cs[..i + 1]) == Entries(cs[..i]) + [(PolicyName(cs[i].name), Classify(cs[i].outcome))];
      if accepted.None? && Decisive(out) {
        accepted := Some(out);
      }
      stop := Breaks(out);
      i := i + 1;
    }
    r := if accepted.Some? then accepted.value else NO_MATCH;
  }

  /** The answer is the outcome of the first policy with a response or an error, and
      nothing when there is none. */
  lemma {:induction false} AnswerIsFirst(cs: seq<Candidate>, i: nat)
    requires i <= |cs| && forall j :: 0 <= j < i ==> cs[j].outcome.result.None? && !cs[j].outcome.error
    requires i < |cs| ==> cs[i].outcome.result.Some? || cs[i].outcome.error
    ensures FirstDecisive(cs) == if i < |cs| then cs[i].outcome else Evaluation(None, false)
  {
    if i == 0 || cs == [] {
    } else {
      AnswerIsFirst(cs[1..], i - 1);
    }
  }

  /** A policy that does not match can be inserted anywhere. */
  lemma {:induction false} InsertNoMatch(before: seq<Candidate>, c: Candidate, after: seq<Candidate>)
    requires c.outcome == NO_MATCH
    ensures FirstDecisive(before + [c] + after) == FirstDecisive(before + after)
  {
    if before == [] {
      assert [] + [c] + after == [c] + after && ([c] + after)[1..] == after;
      assert before + after == after;
    } else {
      assert (before + [c] + after)[1..] == before[1..] + [c] + after;
      assert (before + after)[1..] == before[1..] + after;
      InsertNoMatch(before[1..], c, after);
    }
  }

  /** After a policy that says something, no later policy can change the answer. */
  lemma {:induction false} AppendAfterDecisive(cs: seq<Candidate>, more: seq<Candidate>)
    ensures FirstDecisive(cs + more) ==
            if exists i :: 0 <= i < |cs| && Decisive(cs[i].outcome) then FirstDecisive(cs) else FirstDecisive(more)
  {
    if cs == [] {
      assert cs + more == more;
    } else {
      assert (cs + more)[1..] == cs[1..] + more;
      AppendAfterDecisive(cs[1..], more);
      if i :| 1 <= i < |cs| && Decisive(cs[i].outcome) {
        assert Decisive(cs[1..][i - 1].outcome);
      }
    }
  }

  /** An error does not stop the evaluation of later policies, but it is the answer:
      the answer is a result exactly when the first policy that says anything has one,
      and then it comes from the last policy evaluated. */
  lemma {:induction false} AnswerIsResultExactly(cs: seq<Candidate>)
    requires forall i :: 0 <= i < |cs| ==> !(cs[i].outcome.error && cs[i].outcome.result.Some?)
    ensures var n := Evaluated(cs);
      FirstDecisive(cs).result.Some? <==>
        && n > 0 && Breaks(cs[n - 1].outcome)
        && forall i :: 0 <= i < n - 1 ==> !cs[i].outcome.error
    ensures FirstDecisive(cs).result.Some? ==> FirstDecisive(cs) == cs[Evaluated(cs) - 1].outcome
  {
    if cs == [] || Breaks(cs[0].outcome) {
    } else {
      var rest := cs[1..];
      AnswerIsResultExactly(rest);
      var n := Evaluated(rest);
      assert forall i :: 0 <= i < |rest| ==> rest[i] == cs[i + 1];
      if n > 0 && Breaks(rest[n - 1].outcome) && (forall i :: 0 <= i < n ==> !cs[i].outcome.error) {
        assert forall i :: 0 <= i < n - 1 ==> !rest[i].outcome.error;
      }
      if FirstDecisive(cs).result.Some? {
        assert !cs[0].outcome.error;
        assert forall i :: 0 < i < n ==> cs[i] == rest[i - 1];
      }
    }
  }

  // ------------------------------------------------ the order of the policies

  ghost predicate Says(cs: seq<Candidate>, e: Evaluation) {
    exists i :: 0 <= i < |cs| && cs[i].outcome == e
  }

  /** All policies that say something say the same. */
  ghost predicate Unanimous(cs: seq<Candidate>) {
    forall d, e :: Says(cs, d) && Says(cs, e) && Decisive(d) && Decisive(e) ==> d == e
  }

  lemma {:induction false} FirstIsOneOf(cs: seq<Candidate>)
    ensures if Decisive(FirstDecisive(cs)) then Says(cs, FirstDecisive(cs))
            else FirstDecisive(cs) == NO_MATCH && forall e :: Says(cs, e) ==> !Decisive(e)
  {
    if cs == [] {
    } else {
      FirstIsOneOf(cs[1..]);
      assert cs[0].outcome == cs[0].outcome;
      assert forall i :: 0 <= i < |cs[1..]| ==> cs[1..][i] == cs[i + 1];
      forall e | Says(cs, e) ensures e == cs[0].outcome || Says(cs[1..], e) {
        var i :| 0 <= i < |cs| && cs[i].outcome == e;
        assert i > 0 ==> cs[1..][i - 1].outcome == e;
      }
    }
  }

  /** A unanimous answer depends on what is said only, not on the order. */
  lemma UnanimousAnswer(cs: seq<Candidate>, cs': seq<Candidate>)
    requires Unanimous(cs) && forall e :: Says(cs, e) <==> Says(cs', e)
    ensures FirstDecisive(cs) == FirstDecisive(cs')
  {
    FirstIsOneOf(cs);
    FirstIsOneOf(cs');
  }

  lemma PermutationSays(cs: seq<Candidate>, cs': seq<Candidate>, e: Evaluation)
    requires multiset(cs) == multiset(cs') && Says(cs, e)
    ensures Says(cs', e)
  {
    Ordering.PermutationMembers(cs, cs');
    var i :| 0 <= i < |cs| && cs[i].outcome == e;
    assert cs[i] in cs;
    assert cs[i] in cs';
    var j :| 0 <= j < |cs'| && cs'[j] == cs[i];
  }

  lemma FirstAnswers(cs: seq<Candidate>, e: Evaluation) returns (order: seq<Candidate>)
    requires Says(cs, e) && Decisive(e)
    ensures multiset(order) == multiset(cs) && FirstDecisive(order) == e
  {
    var i :| 0 <= i < |cs| && cs[i].outcome == e;
    order := Ordering.ToFront(cs, i);
    Ordering.ToFrontPermutes(cs, i);
  }

  /** The answer is the same for every order of the policies exactly when they are
      unanimous. */
  lemma AnswerIgnoresOrderExactly(cs: seq<Candidate>)
    ensures (forall cs' :: multiset(cs') == multiset(cs) ==> FirstDecisive(cs') == FirstDecisive(cs)) <==> Unanimous(cs)
  {
    if Unanimous(cs) {
      forall cs' | multiset(cs') == multiset(cs) ensures FirstDecisive(cs') == FirstDecisive(cs) {
        forall e ensures Says(cs, e) <==> Says(cs', e) {
          if Says(cs, e) { PermutationSays(cs, cs', e); }
          if Says(cs', e) { PermutationSays(cs', cs, e); }
        }
        UnanimousAnswer(cs, cs');
      }
    } else {
      var d, e :| Says(cs, d) && Says(cs, e) && Decisive(d) && Decisive(e) && d != e;
      var dFirst := FirstAnswers(cs, d);
      var eFirst := FirstAnswers(cs, e);
    }
  }
}
