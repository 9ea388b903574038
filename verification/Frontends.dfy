/** The two front ends around the engine: the Envoy service and the HTTP server, the
    decision each records, and the event each emits. */
module Frontends {
  import opened Api
  import Cel
  import Compiler
  import opened Evaluation
  import opened Dispatch

  datatype Source = FromPolicy | FromEngine | FromDefault | FromServer

  datatype Recorded = Recorded(mode: Mode, decision: Decision, source: Source)

  datatype EventOutcome = RequestAllowed | RequestDenied | RequestErrored

  /** What a subscriber reads out of a result accessor. An accessor that holds neither
      an error nor a response panics. */
  function MustGet(result: Option<Response>, error: bool): Option<EventOutcome> {
    if error then Some(RequestErrored)
    else if result.None? then None
    else if result.value.denied then Some(RequestDenied)
    else Some(RequestAllowed)
  }

  function OutcomeFor(d: Decision): EventOutcome {
    match d
    case Deny => RequestDenied
    case Errored => RequestErrored
    case Allow => RequestAllowed
    case NoMatch => RequestAllowed
  }

  const EMPTY_RESPONSE := Response(Envoy, false, false, 0)

  class Recorder {
    var decisions: seq<Recorded>
    var events: seq<Option<EventOutcome>>

    constructor ()
      ensures decisions == [] && events == []
    {
      decisions, events := [], [];
    }

    /** The Envoy check: the response is tested first, the error second. */
    method CheckEnvoy(handled: Evaluation) returns (response: Response, error: bool)
      modifies this
      ensures exists r, e ::
        (EnvoyTells(handled, r, e) && decisions == old(decisions) + [r] && events == old(events) + [Some(e)])
      ensures decisions == old(decisions) + [Recorded(Envoy, EnvoyDecision(handled), EnvoySource(handled))]
      ensures events == old(events) + [Some(OutcomeFor(EnvoyDecision(handled)))]
      ensures error <==> handled.result.None? && handled.error
      ensures handled.result.Some? ==> response == handled.result.value
      ensures handled.result.None? ==> response == EMPTY_RESPONSE
    {
      var decision, source := Errored, FromServer;
      if handled.result.None? {
        response, error := EMPTY_RESPONSE, handled.error;
      } else {
        response, error := handled.result.value, false;
      }
      if error {
        source := FromEngine;
        events := events + [MustGet(None, true)];
      } else {
        if response.denied {
          decision, source := Deny, FromPolicy;
        } else if response.ok {
          decision, source := Allow, FromPolicy;
        } else {
          decision, source := Allow, FromDefault;
        }
        events := events + [MustGet(Some(response), false)];
      }
      decisions := decisions + [Recorded(Envoy, decision, source)];
      EnvoyTellsExactly(handled, Recorded(Envoy, decision, source), OutcomeFor(decision));
    }

    /** The HTTP handler: `requestOk` is false when reading the request, or rewriting it
        with the input expression, failed; `outputOk` is false when the output expression
        or the conversion of its value failed. The error is tested first. */
    method ServeHTTP(requestOk: bool, handled: Evaluation, outputOk: bool) returns (status500: bool)
      modifies this
      ensures exists r :: HttpTells(requestOk, handled, outputOk, r) && decisions == old(decisions) + [r]
      ensures !requestOk ==> events == old(events)
      ensures requestOk ==> exists e :: HttpEmits(handled, e) && events == old(events) + [Some(e)]
      ensures decisions == old(decisions) + [HttpRecord(requestOk, handled, outputOk)]
      ensures events == old(events) + if requestOk then [Some(OutcomeFor(HttpDecision(handled)))] else []
      ensures status500 <==> !requestOk || handled.error || !outputOk
    {
      HttpTellsExactly(requestOk, handled, outputOk, HttpRecord(requestOk, handled, outputOk));
      HttpEmitsExactly(handled, OutcomeFor(HttpDecision(handled)));
      var decision, source := Errored, FromServer;
      if !requestOk {
        decisions := decisions + [Recorded(HTTP, decision, source)];
        return true;
      }
      if handled.error {
        source := FromEngine;
        events := events + [MustGet(None, true)];
        decisions := decisions + [Recorded(HTTP, decision, source)];
        return true;
      }
      var result := handled.result;
      if result.None? {
        result := Some(Response(HTTP, false, true, 0));
        decision, source := Allow, FromDefault;
      } else if result.value.denied {
        decision, source := Deny, FromPolicy;
      } else {
        decision, source := Allow, FromPolicy;
      }
      events := events + [MustGet(result, false)];
      if !outputOk {
        decision, source := Errored, FromServer;
      }
      decisions := decisions + [Recorded(HTTP, decision, source)];
      status500 := !outputOk;
    }
  }

  function Verdict(r: Option<Response>): Decision {
    if r.Some? && r.value.denied then Deny else Allow
  }

  function EnvoyDecision(handled: Evaluation): Decision {
    if handled.result.None? && handled.error then Errored else Verdict(handled.result)
  }

  function EnvoySource(handled: Evaluation): Source {
    if handled.result.None? then if handled.error then FromEngine else FromDefault
    else if handled.result.value.denied || handled.result.value.ok then FromPolicy
    else FromDefault
  }

  /** The decision of the HTTP handler before the output expression runs. */
  function HttpDecision(handled: Evaluation): Decision {
    if handled.error then Errored else Verdict(handled.result)
  }

  function HttpRecord(requestOk: bool, handled: Evaluation, outputOk: bool): Recorded {
    if !requestOk then Recorded(HTTP, Errored, FromServer)
    else if handled.error then Recorded(HTTP, Errored, FromEngine)
    else if !outputOk then Recorded(HTTP, Errored, FromServer)
    else Recorded(HTTP, Verdict(handled.result), if handled.result.None? then FromDefault else FromPolicy)
  }

  /** The record and the event of an Envoy check, told from what the engine answered: the
      answer is denied, or an error without a response, or allowed; and who said so. */
  predicate EnvoyTells(handled: Evaluation, r: Recorded, e: EventOutcome) {
    && r.mode == Envoy
    && (r.decision == Deny <==> handled.result.Some? && handled.result.value.denied)
    && (r.decision == Errored <==> handled.result.None? && handled.error)
    && r.decision != NoMatch
    && (e == RequestDenied <==> handled.result.Some? && handled.result.value.denied)
    && (e == RequestErrored <==> handled.result.None? && handled.error)
    && (r.source == FromEngine <==> handled.result.None? && handled.error)
    && (r.source == FromPolicy <==> handled.result.Some? && (handled.result.value.denied || handled.result.value.ok))
    && r.source != FromServer
  }

  /** There is one such record, and one such event: those of the check. */
  lemma EnvoyTellsExactly(handled: Evaluation, r: Recorded, e: EventOutcome)
    ensures EnvoyTells(handled, r, e) <==>
            r == Recorded(Envoy, EnvoyDecision(handled), EnvoySource(handled)) && e == OutcomeFor(EnvoyDecision(handled))
  {
  }

  /** The record of an HTTP request: the error is looked at first, and failures of the
      server itself, before or after the engine, are errors too. */
  predicate HttpTells(requestOk: bool, handled: Evaluation, outputOk: bool, r: Recorded) {
    && r.mode == HTTP
    && (r.decision == Deny <==>
          requestOk && !handled.error && outputOk && handled.result.Some? && handled.result.value.denied)
    && (r.decision == Errored <==> !requestOk || handled.error || !outputOk)
    && r.decision != NoMatch
    && (r.source == FromEngine <==> requestOk && handled.error)
    && (r.source == FromServer <==> !requestOk || (!handled.error && !outputOk))
    && (r.source == FromPolicy <==> requestOk && !handled.error && outputOk && handled.result.Some?)
  }

  lemma HttpTellsExactly(requestOk: bool, handled: Evaluation, outputOk: bool, r: Recorded)
    ensures HttpTells(requestOk, handled, outputOk, r) <==> r == HttpRecord(requestOk, handled, outputOk)
  {
  }

  /** The event of an HTTP request that was read. */
  predicate HttpEmits(handled: Evaluation, e: EventOutcome) {
    && (e == RequestErrored <==> handled.error)
    && (e == RequestDenied <==> !handled.error && handled.result.Some? && handled.result.value.denied)
  }

  lemma HttpEmitsExactly(handled: Evaluation, e: EventOutcome)
    ensures HttpEmits(handled, e) <==> e == OutcomeFor(HttpDecision(handled))
  {
  }

  /** The decision that the metrics count for one evaluation is the one that a front end
      records for it, except that nothing said is no match there and allowed here. */
  lemma MetricsTellDecision(e: Evaluation)
    ensures Classify(e) == if Decisive(e) then HttpDecision(e) else NoMatch
  {
  }

  /** The two test orders agree exactly on the outcomes that do not carry a response
      and an error at once. */
  lemma FrontEndsAgreeExactly(handled: Evaluation)
    ensures EnvoyDecision(handled) == HttpDecision(handled) <==> !(handled.error && handled.result.Some?)
  {
  }

  /** The event of an HTTP request tells the recorded decision, unless the output
      expression failed on a request that no error had ended before. */
  lemma HttpEventTellsDecisionExactly(handled: Evaluation, outputOk: bool)
    ensures OutcomeFor(HttpRecord(true, handled, outputOk).decision) == OutcomeFor(HttpDecision(handled)) <==>
            handled.error || outputOk
  {
  }

  /** A policy as the engine holds it: compiled, with the declarations behind it. */
  datatype Installed = Installed(policy: ValidatingPolicy, exceptions: seq<PolicyException>)

  ghost function CandidatesOf(ps: seq<Installed>, kind: Mode, req: Cel.Request): (cs: seq<Candidate>)
    ensures |cs| == |ps|
  {
    seq(|ps|, i requires 0 <= i < |ps| =>
      Candidate(Some(ps[i].policy.name.text), Meaning(ps[i].policy, ps[i].exceptions, kind, req)))
  }

  /** For any installed policies and any request both front ends reach one decision,
      although one tests the response first and the other the error. */
  lemma BothFrontEndsDecideAlike(ps: seq<Installed>, kind: Mode, req: Cel.Request)
    ensures var handled := FirstDecisive(CandidatesOf(ps, kind, req));
            EnvoyDecision(handled) == HttpDecision(handled)
  {
    var cs := CandidatesOf(ps, kind, req);
    FirstIsOneOf(cs);
    var handled := FirstDecisive(cs);
    if Decisive(handled) {
      var i :| 0 <= i < |cs| && cs[i].outcome == handled;
      var p := ps[i].policy;
      var env := EnvOf(ChosenOrder(p, ps[i].exceptions), req);
      NeverBoth(Vals(p.matchConditions, req, map[]), ExceptionVals(Compiler.Conditions(ps[i].exceptions), req, env),
                Vals(p.validations, req, env), kind);
    }
    FrontEndsAgreeExactly(handled);
  }

  // ------------------------------------------------- from policies to decisions

  /** Each installed policy runs over the order at its place. */
  ghost predicate AllRun(ps: seq<Installed>, orders: seq<seq<Declaration>>) {
    |orders| == |ps| && forall i :: 0 <= i < |ps| ==>
      RunsOver(Compiler.Assembled(ps[i].policy, ps[i].exceptions), orders[i])
  }

  /** The policy reports nothing: it is silent, or ignores its error. */
  ghost predicate Quiet(p: Installed, order: seq<Declaration>, kind: Mode, req: Cel.Request) {
    var env := EnvOf(order, req);
    || Silent(p.policy, p.exceptions, req, env)
    || (p.policy.failurePolicy == Some(Ignore) && Fault(p.policy, p.exceptions, kind, req, env))
  }

  /** Policy `i` is the first that is not quiet, and answers with `r`. */
  ghost predicate FirstAnswers(ps: seq<Installed>, orders: seq<seq<Declaration>>, kind: Mode, req: Cel.Request,
                               i: nat, r: Response)
    requires |orders| == |ps|
  {
    && i < |ps| && Answers(ps[i].policy, ps[i].exceptions, kind, req, EnvOf(orders[i], req), r)
    && forall j :: 0 <= j < i ==> Quiet(ps[j], orders[j], kind, req)
  }

  lemma CandidateTold(ps: seq<Installed>, orders: seq<seq<Declaration>>, kind: Mode, req: Cel.Request, i: nat)
    requires AllRun(ps, orders) && i < |ps|
    ensures var e := CandidatesOf(ps, kind, req)[i].outcome;
      && (e == Evaluation(None, false) <==> Quiet(ps[i], orders[i], kind, req))
      && (forall r :: e == Evaluation(Some(r), false) <==>
            Answers(ps[i].policy, ps[i].exceptions, kind, req, EnvOf(orders[i], req), r))
      && !(e.error && e.result.Some?)
  {
    var p, exs, order := ps[i].policy, ps[i].exceptions, orders[i];
    MeaningIsOver(p, order, exs, kind, req);
    PolicySilentExactly(p, order, exs, kind, req);
    forall r ensures MeaningOver(p, order, exs, kind, req) == Evaluation(Some(r), false) <==>
                     Answers(p, exs, kind, req, EnvOf(order, req), r) {
      PolicyAnswersExactly(p, order, exs, kind, req, r);
    }
    NeverBoth(Vals(p.matchConditions, req, map[]), ExceptionVals(Compiler.Conditions(exs), req, EnvOf(order, req)),
              Vals(p.validations, req, EnvOf(order, req)), kind);
  }

  /** A request is denied, at either front end, exactly when the first of the installed
      policies that is not quiet answers with a response that denies. */
  lemma DeniedExactly(ps: seq<Installed>, orders: seq<seq<Declaration>>, kind: Mode, req: Cel.Request)
    requires AllRun(ps, orders)
    ensures var handled := FirstDecisive(CandidatesOf(ps, kind, req));
      && (HttpDecision(handled) == Deny <==>
            exists i: nat, r: Response :: r.denied && FirstAnswers(ps, orders, kind, req, i, r))
      && (EnvoyDecision(handled) == Deny <==>
            exists i: nat, r: Response :: r.denied && FirstAnswers(ps, orders, kind, req, i, r))
  {
    var cs := CandidatesOf(ps, kind, req);
    BothFrontEndsDecideAlike(ps, kind, req);
    if i: nat, r: Response :| r.denied && FirstAnswers(ps, orders, kind, req, i, r) {
      FirstIsAnswer(ps, orders, kind, req, i, r);
    }
    var i := FirstLoud(cs);
    AnswerIsFirst(cs, i);
    if i < |ps| {
      CandidateTold(ps, orders, kind, req, i);
      forall j | 0 <= j < i ensures Quiet(ps[j], orders[j], kind, req) {
        CandidateTold(ps, orders, kind, req, j);
      }
      if cs[i].outcome.result.Some? {
        assert FirstAnswers(ps, orders, kind, req, i, cs[i].outcome.result.value);
      }
    }
  }

  lemma FirstIsAnswer(ps: seq<Installed>, orders: seq<seq<Declaration>>, kind: Mode, req: Cel.Request, i: nat, r: Response)
    requires AllRun(ps, orders) && FirstAnswers(ps, orders, kind, req, i, r)
    ensures FirstDecisive(CandidatesOf(ps, kind, req)) == Evaluation(Some(r), false)
  {
    var cs := CandidatesOf(ps, kind, req);
    CandidateTold(ps, orders, kind, req, i);
    forall j | 0 <= j < i ensures cs[j].outcome == Evaluation(None, false) {
      CandidateTold(ps, orders, kind, req, j);
    }
    AnswerIsFirst(cs, i);
  }

  lemma FirstLoud(cs: seq<Candidate>) returns (i: nat)
    ensures i <= |cs| && forall j :: 0 <= j < i ==> cs[j].outcome.result.None? && !cs[j].outcome.error
    ensures i < |cs| ==> cs[i].outcome.result.Some? || cs[i].outcome.error
  {
    i := 0;
    while i < |cs| && cs[i].outcome.result.None? && !cs[i].outcome.error
      invariant i <= |cs| && forall j :: 0 <= j < i ==> cs[j].outcome.result.None? && !cs[j].outcome.error
    {
      i := i + 1;
    }
  }
}
