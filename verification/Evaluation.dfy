/** Evaluation of a compiled policy: match conditions, exceptions, rules and failure
    policy, over variables that are evaluated on first use and then remembered. */
module Evaluation {
  import opened Api
  import opened Cel
  import opened Compiler
  import Ordering

  // ------------------------------------------------------------- variables

  /** Eager evaluation of the variables, one by one in declaration order. */
  function EnvOf(decls: seq<Declaration>, req: Request): map<Name, Val> {
    if decls == [] then map[] else
    var before := EnvOf(decls[..|decls| - 1], req);
    before[decls[|decls| - 1].name := Eval(decls[|decls| - 1].expression, req, before)]
  }

  lemma {:induction false} EnvNames(decls: seq<Declaration>, req: Request)
    ensures EnvOf(decls, req).Keys == NamesOf(decls)
  {
    if decls == [] {
    } else {
      var init, d := decls[..|decls| - 1], decls[|decls| - 1];
      EnvNames(init, req);
      NamesAppend(init, d);
      assert decls == init + [d];
    }
  }

  /** Later declarations do not change the value of an earlier variable. */
  lemma {:induction false} EnvPrefix(decls: seq<Declaration>, req: Request, n: nat)
    requires n <= |decls| && Unique(decls)
    ensures forall v :: v in NamesOf(decls[..n]) ==>
      v in EnvOf(decls, req) && v in EnvOf(decls[..n], req) && EnvOf(decls, req)[v] == EnvOf(decls[..n], req)[v]
  {
    EnvNames(decls[..n], req);
    if n == |decls| {
      assert decls[..n] == decls;
    } else {
      var init := decls[..|decls| - 1];
      assert init[..n] == decls[..n];
      EnvPrefix(init, req, n);
      forall v | v in NamesOf(decls[..n]) ensures v != decls[|decls| - 1].name {
        var i :| 0 <= i < n && decls[..n][i].name == v;
        assert decls[i].name == v;
      }
    }
  }

  /** Each variable's eager value is its own expression over the whole environment. */
  lemma EnvFixpoint(decls: seq<Declaration>, req: Request, i: nat)
    requires i < |decls| && Unique(decls) && Ordered(decls)
    ensures decls[i].name in EnvOf(decls, req)
    ensures EnvOf(decls, req)[decls[i].name] == Eval(decls[i].expression, req, EnvOf(decls, req))
  {
    var upTo, before := decls[..i + 1], decls[..i];
    EnvPrefix(decls, req, i + 1);
    EnvPrefix(decls, req, i);
    assert upTo[..i] == before && upTo[i] == decls[i];
    assert upTo[i].name in NamesOf(upTo);
    EvalReads(decls[i].expression, req, EnvOf(before, req), EnvOf(decls, req));
  }

  /** The `variables` object of one request: a program per name, and the values of
      the programs that were run so far. */
  class LazyVariables {
    const request: Request
    var callbacks: map<Name, Expr>
    var memo: map<Name, Val>
    /** The variables in the order in which their programs were run. */
    ghost var forced: seq<Name>

    constructor (request: Request)
      ensures this.request == request && callbacks == map[] && memo == map[] && forced == []
    {
      this.request, callbacks, memo, forced := request, map[], map[], [];
    }

    /** Every remembered value is the eager one, and no program was run twice. */
    ghost predicate Consistent(decls: seq<Declaration>)
      reads this
    {
      && Unique(decls) && Ordered(decls) && Declares(decls, callbacks)
      && (forall n :: n in memo ==> n in EnvOf(decls, request) && memo[n] == EnvOf(decls, request)[n])
      && (forall n :: n in memo <==> n in forced)
      && (forall i, j :: 0 <= i < j < |forced| ==> forced[i] != forced[j])
    }

    /** The values of `old` are still remembered, and what was added is among `decls`. */
    twostate predicate Grew(names: set<Name>)
      reads this
    {
      && callbacks == old(callbacks)
      && old(memo.Keys) <= memo.Keys <= old(memo.Keys) + names
      && (forall n :: n in old(memo) ==> memo[n] == old(memo[n]))
    }

    /** Setting up runs no program; the order in which the map of programs is walked
        leaves no trace. */
    method Fill(programs: map<Name, Expr>)
      requires callbacks == map[]
      modifies this`callbacks
      ensures callbacks == programs
    {
      var todo := programs.Keys;
      while todo != {}
        invariant todo <= programs.Keys
        invariant callbacks == programs - todo
        decreases todo
      {
        var name :| name in todo;
        callbacks := callbacks[name := programs[name]];
        todo := todo - {name};
      }
    }

    /** Reading a variable runs its program unless its value is remembered. */
    method Get(name: Name, ghost decls: seq<Declaration>, ghost bound: nat) returns (v: Val)
      requires Consistent(decls) && bound <= |decls| && name in NamesOf(decls[..bound])
      modifies this`memo, this`forced
      ensures Consistent(decls) && Grew(NamesOf(decls[..bound]))
      ensures name in EnvOf(decls, request) && v == EnvOf(decls, request)[name]
      ensures name in memo
      decreases bound, 0
    {
      if name in memo {
        return memo[name];
      }
      ghost var i :| 0 <= i < bound && decls[..bound][i].name == name;
      EnvFixpoint(decls, request, i);
      assert decls[i].name == name;
      v := Run(callbacks[name], decls, i);
      NotEarlier(decls, i);
      NamesGrow(decls, i, bound);
      memo := memo[name := v];
      forced := forced + [name];
    }

    /** Running a program that reads the first `bound` variables only. The recursion
        goes to strictly smaller bounds, so it ends. */
    method Run(e: Expr, ghost decls: seq<Declaration>, ghost bound: nat) returns (v: Val)
      requires Consistent(decls) && bound <= |decls| && Reads(e) <= NamesOf(decls[..bound])
      modifies this`memo, this`forced
      ensures Consistent(decls) && Grew(NamesOf(decls[..bound]))
      ensures v == Eval(e, request, EnvOf(decls, request))
      decreases bound, 1, e
    {
      match e
      case BoolLit(b) => v := Bool(b);
      case NullLit => v := Null;
      case Reply(r) => v := Replied(r);
      case ObjectField(f) => v := if f in request then request[f] else Error;
      case Variable(n) => v := Get(n, decls, bound);
      case Not(a) =>
        v := Run(a, decls, bound);
        v := if v.Bool? then Bool(!v.b) else Error;
      case And(a, b) =>
        v := Run(a, decls, bound);
        if v != Bool(false) {
          var w := Run(b, decls, bound);
          v := AndVal(v, w);
        }
      case Or(a, b) =>
        v := Run(a, decls, bound);
        if v != Bool(true) {
          var w := Run(b, decls, bound);
          v := OrVal(v, w);
        }
      case Cond(t, y, n) =>
        v := Run(t, decls, bound);
        if v == Bool(true) {
          v := Run(y, decls, bound);
        } else if v == Bool(false) {
          v := Run(n, decls, bound);
        } else {
          v := Error;
        }
    }
  }

  lemma NotEarlier(decls: seq<Declaration>, i: nat)
    requires i < |decls| && Unique(decls)
    ensures decls[i].name !in NamesOf(decls[..i])
  {
  }

  lemma NamesGrow(decls: seq<Declaration>, i: nat, bound: nat)
    requires i < bound <= |decls|
    ensures NamesOf(decls[..i]) + {decls[i].name} <= NamesOf(decls[..bound])
  {
    forall n | n in NamesOf(decls[..i]) ensures n in NamesOf(decls[..bound]) {
      var j :| 0 <= j < i && decls[..i][j].name == n;
      assert decls[..bound][j].name == n;
    }
    assert decls[..bound][i].name == decls[i].name;
  }

  // ------------------------------------------------------------- decisions

  /** What a policy evaluation reports: at most one of a response and an error. */
  datatype Evaluation = Evaluation(result: Option<Response>, error: bool)

  const NO_MATCH := Evaluation(None, false)
  const FAILED := Evaluation(None, true)

  function Vals(es: seq<Expr>, req: Request, env: map<Name, Val>): (vs: seq<Val>)
    ensures |vs| == |es| && forall i :: 0 <= i < |es| ==> vs[i] == Eval(es[i], req, env)
  {
    seq(|es|, i requires 0 <= i < |es| => Eval(es[i], req, env))
  }

  datatype MatchVerdict = Skipped | Matched | Unclear

  /** One false condition skips the policy even amid errors; without one, any error
      (a value that is not a boolean counts) leaves the match unclear. */
  function MatchOf(vals: seq<Val>): MatchVerdict {
    if Bool(false) in vals then Skipped
    else if exists i :: 0 <= i < |vals| && vals[i] != Bool(true) then Unclear
    else Matched
  }

  lemma MatchIgnoresOrder(vals: seq<Val>, vals': seq<Val>)
    requires multiset(vals) == multiset(vals')
    ensures MatchOf(vals) == MatchOf(vals')
  {
    Ordering.PermutationMembers(vals, vals');
    if i :| 0 <= i < |vals| && vals[i] != Bool(true) {
      assert vals[i] in vals';
    }
    if i :| 0 <= i < |vals'| && vals'[i] != Bool(true) {
      assert vals'[i] in vals;
    }
  }

  predicate AllTrue(vals: seq<Val>) { forall i :: 0 <= i < |vals| ==> vals[i] == Bool(true) }

  predicate AllBool(vals: seq<Val>) { forall i :: 0 <= i < |vals| ==> vals[i].Bool? }

  datatype ExceptionVerdict = Exempt | Broken | NotExempt

  /** Exceptions are tried in order; the first one that is not all booleans breaks the
      evaluation, the first one that is all true exempts the request. */
  function ExceptionsOf(vs: seq<seq<Val>>): ExceptionVerdict {
    if vs == [] then NotExempt
    else if !AllBool(vs[0]) then Broken
    else if AllTrue(vs[0]) then Exempt
    else ExceptionsOf(vs[1..])
  }

  /** A request is exempt exactly when some exception has only true conditions and no
      condition of it or of an earlier exception fails. */
  lemma {:induction false} ExemptExactly(vs: seq<seq<Val>>)
    ensures ExceptionsOf(vs) == Exempt <==>
            exists k :: 0 <= k < |vs| && AllTrue(vs[k]) && forall j :: 0 <= j <= k ==> AllBool(vs[j])
  {
    if vs == [] {
    } else {
      var rest := vs[1..];
      ExemptExactly(rest);
      assert forall k :: 0 <= k < |rest| ==> rest[k] == vs[k + 1];
      if ExceptionsOf(rest) == Exempt && AllBool(vs[0]) {
        var k :| 0 <= k < |rest| && AllTrue(rest[k]) && forall j :: 0 <= j <= k ==> AllBool(rest[j]);
        assert AllTrue(vs[k + 1]) && forall j :: 0 <= j <= k + 1 ==> AllBool(vs[j]);
      }
      if k :| 0 < k < |vs| && AllTrue(vs[k]) && forall j :: 0 <= j <= k ==> AllBool(vs[j]) {
        assert AllTrue(rest[k - 1]) && forall j :: 0 <= j <= k - 1 ==> AllBool(rest[j]);
      }
    }
  }

  /** The exceptions break the evaluation exactly when a failing one comes before any
      that is all true. */
  lemma {:induction false} BrokenExactly(vs: seq<seq<Val>>)
    ensures ExceptionsOf(vs) == Broken <==>
            exists k :: 0 <= k < |vs| && !AllBool(vs[k]) && forall j :: 0 <= j < k ==> !AllTrue(vs[j])
  {
    if vs == [] {
    } else {
      var rest := vs[1..];
      BrokenExactly(rest);
      assert forall k :: 0 <= k < |rest| ==> rest[k] == vs[k + 1];
      if ExceptionsOf(rest) == Broken && AllBool(vs[0]) && !AllTrue(vs[0]) {
        var k :| 0 <= k < |rest| && !AllBool(rest[k]) && forall j :: 0 <= j < k ==> !AllTrue(rest[j]);
        assert !AllBool(vs[k + 1]) && forall j :: 0 <= j < k + 1 ==> !AllTrue(vs[j]);
      }
      if k :| 0 < k < |vs| && !AllBool(vs[k]) && forall j :: 0 <= j < k ==> !AllTrue(vs[j]) {
        assert !AllBool(rest[k - 1]) && forall j :: 0 <= j < k - 1 ==> !AllTrue(rest[j]);
      }
    }
  }

  /** Some exception is all true, and some exception fails. */
  ghost predicate Contested(vs: seq<seq<Val>>) {
    (exists v :: v in vs && AllTrue(v)) && (exists v :: v in vs && !AllBool(v))
  }

  /** Uncontested exceptions are judged by which of them there are. */
  lemma {:induction false} UncontestedVerdict(vs: seq<seq<Val>>)
    requires !Contested(vs)
    ensures ExceptionsOf(vs) ==
            if exists v :: v in vs && !AllBool(v) then Broken
            else if exists v :: v in vs && AllTrue(v) then Exempt
            else NotExempt
  {
    if vs == [] {
    } else {
      var rest := vs[1..];
      assert forall v :: v in vs <==> v == vs[0] || v in rest;
      UncontestedVerdict(rest);
    }
  }

  /** Contested ones exempt or break, one or the other. */
  lemma ContestedVerdict(vs: seq<seq<Val>>)
    requires Contested(vs)
    ensures ExceptionsOf(vs) != NotExempt
  {
    NotExemptExactly(vs);
    var v :| v in vs && AllTrue(v);
    var k :| 0 <= k < |vs| && vs[k] == v;
  }

  lemma UncontestedMembers(vs: seq<seq<Val>>, vs': seq<seq<Val>>)
    requires forall v :: v in vs <==> v in vs'
    requires !Contested(vs)
    ensures ExceptionsOf(vs) == ExceptionsOf(vs')
  {
    UncontestedVerdict(vs);
    UncontestedVerdict(vs');
  }

  lemma FirstDecides(vs: seq<seq<Val>>, v: seq<Val>) returns (order: seq<seq<Val>>)
    requires v in vs && (AllTrue(v) || !AllBool(v))
    ensures multiset(order) == multiset(vs)
    ensures ExceptionsOf(order) == if AllTrue(v) then Exempt else Broken
  {
    var i :| 0 <= i < |vs| && vs[i] == v;
    order := Ordering.ToFront(vs, i);
    Ordering.ToFrontPermutes(vs, i);
    assert order[0] == v;
  }

  /** The verdict is the same in every order exactly when the exceptions are not contested. */
  lemma ExemptionIgnoresOrderExactly(vs: seq<seq<Val>>)
    ensures (forall vs' :: multiset(vs') == multiset(vs) ==> ExceptionsOf(vs') == ExceptionsOf(vs)) <==> !Contested(vs)
  {
    if Contested(vs) {
      var v :| v in vs && AllTrue(v);
      var w :| w in vs && !AllBool(w);
      var exempting := FirstDecides(vs, v);
      var breaking := FirstDecides(vs, w);
    } else {
      forall vs' | multiset(vs') == multiset(vs) ensures ExceptionsOf(vs') == ExceptionsOf(vs) {
        Ordering.PermutationMembers(vs, vs');
        UncontestedMembers(vs, vs');
      }
    }
  }

  /** The first rule that is not null decides; it has to be a response of the right kind. */
  function RulesOf(vals: seq<Val>, kind: Mode): Evaluation {
    if vals == [] then NO_MATCH
    else if vals[0].Null? then RulesOf(vals[1..], kind)
    else if vals[0].Replied? && vals[0].response.mode == kind then Evaluation(Some(vals[0].response), false)
    else FAILED
  }

  lemma {:induction false} RulesExactly(vals: seq<Val>, kind: Mode, i: nat)
    requires i < |vals| && !vals[i].Null? && forall j :: 0 <= j < i ==> vals[j].Null?
    ensures RulesOf(vals, kind) ==
            if vals[i].Replied? && vals[i].response.mode == kind then Evaluation(Some(vals[i].response), false) else FAILED
  {
    if i == 0 {
    } else {
      RulesExactly(vals[1..], kind, i - 1);
    }
  }

  lemma {:induction false} RulesAllNull(vals: seq<Val>, kind: Mode)
    ensures RulesOf(vals, kind) == NO_MATCH <==> forall i :: 0 <= i < |vals| ==> vals[i].Null?
  {
    if vals == [] {
    } else {
      RulesAllNull(vals[1..], kind);
      assert forall i :: 1 <= i < |vals| ==> vals[i] == vals[1..][i - 1];
      assert forall i :: 0 <= i < |vals[1..]| ==> vals[1..][i] == vals[i + 1];
    }
  }

  function OutcomeOf(conditions: seq<Val>, exceptions: seq<seq<Val>>, rules: seq<Val>, kind: Mode): Evaluation {
    match MatchOf(conditions)
    case Unclear => FAILED
    case Skipped => NO_MATCH
    case Matched =>
      match ExceptionsOf(exceptions)
      case Broken => FAILED
      case Exempt => NO_MATCH
      case NotExempt => RulesOf(rules, kind)
  }

  /** A response comes back exactly when every condition is true, no exception exempts
      or breaks, and the first rule that is not null is a response of the right kind. */
  lemma ResultExactly(conditions: seq<Val>, exceptions: seq<seq<Val>>, rules: seq<Val>, kind: Mode, r: Response)
    ensures OutcomeOf(conditions, exceptions, rules, kind) == Evaluation(Some(r), false) <==>
      && AllTrue(conditions)
      && (forall k :: 0 <= k < |exceptions| ==> AllBool(exceptions[k]) && !AllTrue(exceptions[k]))
      && r.mode == kind
      && exists i :: 0 <= i < |rules| && rules[i] == Replied(r) && forall j :: 0 <= j < i ==> rules[j].Null?
  {
    NotExemptExactly(exceptions);
    if i :| 0 <= i < |rules| && rules[i] == Replied(r) && forall j :: 0 <= j < i ==> rules[j].Null? {
      RulesExactly(rules, kind, i);
    }
    if RulesOf(rules, kind) == Evaluation(Some(r), false) {
      RulesAllNull(rules, kind);
      var i := FirstNotNull(rules);
      RulesExactly(rules, kind, i);
    }
  }

  lemma {:induction false} NotExemptExactly(vs: seq<seq<Val>>)
    ensures ExceptionsOf(vs) == NotExempt <==> forall k :: 0 <= k < |vs| ==> AllBool(vs[k]) && !AllTrue(vs[k])
  {
    if vs == [] {
    } else {
      NotExemptExactly(vs[1..]);
      assert forall k :: 1 <= k < |vs| ==> vs[k] == vs[1..][k - 1];
      assert forall k :: 0 <= k < |vs[1..]| ==> vs[1..][k] == vs[k + 1];
    }
  }

  lemma FirstNotNull(vals: seq<Val>) returns (i: nat)
    requires exists j :: 0 <= j < |vals| && !vals[j].Null?
    ensures i < |vals| && !vals[i].Null? && forall j :: 0 <= j < i ==> vals[j].Null?
  {
    i := 0;
    while vals[i].Null?
      invariant i < |vals| && forall j :: 0 <= j < i ==> vals[j].Null?
      decreases |vals| - i
    {
      i := i + 1;
    }
  }

  /** No evaluation ever reports a response together with an error. */
  lemma NeverBoth(conditions: seq<Val>, exceptions: seq<seq<Val>>, rules: seq<Val>, kind: Mode)
    ensures !(OutcomeOf(conditions, exceptions, rules, kind).error &&
              OutcomeOf(conditions, exceptions, rules, kind).result.Some?)
  {
    if exists j :: 0 <= j < |rules| && !rules[j].Null? {
      var i := FirstNotNull(rules);
      RulesExactly(rules, kind, i);
    } else {
      RulesAllNull(rules, kind);
    }
  }

  /** An evaluation fails exactly when no condition is false and one is not true; or the
      conditions hold and a failing exception comes before any that is all true; or neither
      decides and the first rule that is not null is no response of the right kind. */
  lemma FailedExactly(conditions: seq<Val>, exceptions: seq<seq<Val>>, rules: seq<Val>, kind: Mode)
    ensures OutcomeOf(conditions, exceptions, rules, kind) == Evaluation(None, true) <==>
      || (Bool(false) !in conditions && exists i :: 0 <= i < |conditions| && conditions[i] != Bool(true))
      || (&& AllTrue(conditions)
          && exists k :: 0 <= k < |exceptions| && !AllBool(exceptions[k]) &&
                         forall j :: 0 <= j < k ==> !AllTrue(exceptions[j]))
      || (&& AllTrue(conditions)
          && (forall k :: 0 <= k < |exceptions| ==> AllBool(exceptions[k]) && !AllTrue(exceptions[k]))
          && exists i: nat :: IsFirst(rules, i) && !(rules[i].Replied? && rules[i].response.mode == kind))
  {
    BrokenExactly(exceptions);
    NotExemptExactly(exceptions);
    RulesFailExactly(rules, kind);
  }

  /** The value at `i` is the first that is not null. */
  ghost predicate IsFirst(vals: seq<Val>, i: nat) {
    i < |vals| && !vals[i].Null? && forall j :: 0 <= j < i ==> vals[j].Null?
  }

  lemma RulesFailExactly(rules: seq<Val>, kind: Mode)
    ensures RulesOf(rules, kind) == Evaluation(None, true) <==>
      exists i: nat :: IsFirst(rules, i) && !(rules[i].Replied? && rules[i].response.mode == kind)
  {
    if i: nat :| IsFirst(rules, i) && !(rules[i].Replied? && rules[i].response.mode == kind) {
      RulesExactly(rules, kind, i);
    }
    if exists j :: 0 <= j < |rules| && !rules[j].Null? {
      var i := FirstNotNull(rules);
      RulesExactly(rules, kind, i);
      assert IsFirst(rules, i);
    } else {
      RulesAllNull(rules, kind);
    }
  }

  /** Nothing is reported exactly when some condition is false; or the conditions hold and
      an exception exempts with no failing one up to it; or neither decides and every rule
      is null. */
  lemma NoMatchExactly(conditions: seq<Val>, exceptions: seq<seq<Val>>, rules: seq<Val>, kind: Mode)
    ensures OutcomeOf(conditions, exceptions, rules, kind) == Evaluation(None, false) <==>
      || Bool(false) in conditions
      || (&& AllTrue(conditions)
          && exists k :: 0 <= k < |exceptions| && AllTrue(exceptions[k]) &&
                         forall j :: 0 <= j <= k ==> AllBool(exceptions[j]))
      || (&& AllTrue(conditions)
          && (forall k :: 0 <= k < |exceptions| ==> AllBool(exceptions[k]) && !AllTrue(exceptions[k]))
          && forall i :: 0 <= i < |rules| ==> rules[i].Null?)
  {
    ExemptExactly(exceptions);
    NotExemptExactly(exceptions);
    RulesAllNull(rules, kind);
  }

  /** The failure policy decides only what becomes of an error. */
  function Applied(failurePolicy: FailurePolicy, e: Evaluation): Evaluation {
    if e.error && failurePolicy == Fail then FAILED else e.(error := false)
  }

  /** What a policy means when its variables are evaluated eagerly in this order:
      conditions over no variables, exceptions and rules over all of them. */
  function MeaningOver(p: ValidatingPolicy, order: seq<Declaration>, exs: seq<PolicyException>, kind: Mode, req: Request)
    : Evaluation
  {
    MeaningOf(Assembled(p, exs), order, kind, req)
  }

  /** An order that the policy runs over, if there is one. */
  ghost function ChosenOrder(p: ValidatingPolicy, exs: seq<PolicyException>): (order: seq<Declaration>)
    ensures (exists d :: RunsOver(Assembled(p, exs), d)) ==> RunsOver(Assembled(p, exs), order)
  {
    if exists d :: RunsOver(Assembled(p, exs), d) then
      var d :| RunsOver(Assembled(p, exs), d);
      d
    else p.variables
  }

  /** The meaning of a policy, the same over every order that it runs over. A policy that
      runs over none is not evaluated to an end, and this says nothing about it. */
  ghost function Meaning(p: ValidatingPolicy, exs: seq<PolicyException>, kind: Mode, req: Request): Evaluation {
    MeaningOver(p, ChosenOrder(p, exs), exs, kind, req)
  }

  function ExceptionVals(exceptions: seq<seq<Expr>>, req: Request, env: map<Name, Val>): (vs: seq<seq<Val>>)
    ensures |vs| == |exceptions| && forall k :: 0 <= k < |vs| ==> vs[k] == Vals(exceptions[k], req, env)
  {
    seq(|exceptions|, k requires 0 <= k < |exceptions| => Vals(exceptions[k], req, env))
  }

  function MeaningOf(c: CompiledPolicy, decls: seq<Declaration>, kind: Mode, req: Request): Evaluation {
    var env := EnvOf(decls, req);
    Applied(c.failurePolicy,
            OutcomeOf(Vals(c.matchConditions, req, map[]), ExceptionVals(c.exceptions, req, env),
                      Vals(c.rules, req, env), kind))
  }

  /** `c` runs over the variables `decls`: uniquely named, in order, declaring programs
      of `c`, and among them all that its rules and exceptions read. */
  ghost predicate RunsOver(c: CompiledPolicy, decls: seq<Declaration>) {
    && Unique(decls) && Ordered(decls) && Declares(decls, c.variables)
    && (forall i :: 0 <= i < |c.rules| ==> Reads(c.rules[i]) <= NamesOf(decls))
    && (forall k, i :: 0 <= k < |c.exceptions| && 0 <= i < |c.exceptions[k]| ==>
          Reads(c.exceptions[k][i]) <= NamesOf(decls))
  }

  /** The variables that the rules and the exceptions read. */
  function RootsOf(c: CompiledPolicy): set<Name> {
    (set i, n | 0 <= i < |c.rules| && n in Reads(c.rules[i]) :: n) +
    (set k, i, n | 0 <= k < |c.exceptions| && 0 <= i < |c.exceptions[k]| && n in Reads(c.exceptions[k][i]) :: n)
  }

  lemma RunsOverSupports(c: CompiledPolicy, decls: seq<Declaration>)
    ensures RunsOver(c, decls) <==> Supports(decls, c.variables, RootsOf(c))
  {
    if Supports(decls, c.variables, RootsOf(c)) {
      forall i, n | 0 <= i < |c.rules| && n in Reads(c.rules[i]) ensures n in NamesOf(decls) {
        assert n in RootsOf(c);
      }
      forall k, i, n | 0 <= k < |c.exceptions| && 0 <= i < |c.exceptions[k]| && n in Reads(c.exceptions[k][i])
        ensures n in NamesOf(decls)
      {
        assert n in RootsOf(c);
      }
    }
  }

  /** What compiles can be evaluated, over some order of the variables it needs, exactly
      when no chain of reads from its rules and exceptions comes to a knot. */
  lemma CompiledRunsExactly(schemas: Schemas, p: ValidatingPolicy, exs: seq<PolicyException>)
    requires Accepts(schemas, p) && ExceptionsCompile(schemas, p, exs)
    ensures var c := Assembled(p, exs);
      (exists decls :: RunsOver(c, decls)) <==> !KnottedFrom(c.variables, RootsOf(c))
  {
    var c := Assembled(p, exs);
    CompiledScoping(schemas, p, exs);
    SurvivorsReadDeclared(schemas, p.mode, p.variables);
    ScopeIsOrdered(schemas, p.mode, p.variables);
    SupportedExactly(c.variables, RootsOf(c));
    if decls :| Supports(decls, c.variables, RootsOf(c)) {
      RunsOverSupports(c, decls);
    }
    if decls :| RunsOver(c, decls) {
      RunsOverSupports(c, decls);
    }
  }

  /** Whatever compiles from uniquely named variables can be evaluated in their order. */
  lemma CompiledRuns(schemas: Schemas, p: ValidatingPolicy, exs: seq<PolicyException>)
    requires Accepts(schemas, p) && ExceptionsCompile(schemas, p, exs) && Unique(p.variables)
    ensures RunsOver(Assembled(p, exs), p.variables)
  {
    CompiledScoping(schemas, p, exs);
    ProgramsOfUnique(p.variables);
  }

  /** Two orders of the same programs give a variable that both have one value. */
  lemma {:induction false} EnvsAgree(d: seq<Declaration>, d': seq<Declaration>, programs: map<Name, Expr>, req: Request,
                                     i: nat)
    requires Unique(d) && Ordered(d) && Declares(d, programs)
    requires Unique(d') && Ordered(d') && Declares(d', programs)
    requires i < |d| && d[i].name in NamesOf(d')
    ensures d[i].name in EnvOf(d, req) && d[i].name in EnvOf(d', req)
    ensures EnvOf(d, req)[d[i].name] == EnvOf(d', req)[d[i].name]
  {
    var e := d[i].expression;
    var j :| 0 <= j < |d'| && d'[j].name == d[i].name;
    EnvFixpoint(d, req, i);
    EnvFixpoint(d', req, j);
    OrderIsClosed(d', programs, d'[j].name);
    forall n | n in Reads(e) ensures n in EnvOf(d, req) && n in EnvOf(d', req) && EnvOf(d, req)[n] == EnvOf(d', req)[n] {
      assert n in NamesOf(d[..i]);
      var k :| 0 <= k < i && d[..i][k].name == n;
      EnvsAgree(d, d', programs, req, k);
    }
    EvalReads(e, req, EnvOf(d, req), EnvOf(d', req));
  }

  lemma EnvsAgreeOn(d: seq<Declaration>, d': seq<Declaration>, programs: map<Name, Expr>, req: Request, e: Expr)
    requires Unique(d) && Ordered(d) && Declares(d, programs)
    requires Unique(d') && Ordered(d') && Declares(d', programs)
    requires Reads(e) <= NamesOf(d) && Reads(e) <= NamesOf(d')
    ensures Eval(e, req, EnvOf(d, req)) == Eval(e, req, EnvOf(d', req))
  {
    forall n | n in Reads(e) ensures n in EnvOf(d, req) && n in EnvOf(d', req) && EnvOf(d, req)[n] == EnvOf(d', req)[n] {
      var i :| 0 <= i < |d| && d[i].name == n;
      EnvsAgree(d, d', programs, req, i);
    }
    EvalReads(e, req, EnvOf(d, req), EnvOf(d', req));
  }

  /** Over whichever order it runs, a policy means the same. */
  lemma MeaningIgnoresVariableOrder(c: CompiledPolicy, d: seq<Declaration>, d': seq<Declaration>, kind: Mode, req: Request)
    requires RunsOver(c, d) && RunsOver(c, d')
    ensures MeaningOf(c, d, kind, req) == MeaningOf(c, d', kind, req)
  {
    var env, env' := EnvOf(d, req), EnvOf(d', req);
    forall i | 0 <= i < |c.rules| ensures Eval(c.rules[i], req, env) == Eval(c.rules[i], req, env') {
      EnvsAgreeOn(d, d', c.variables, req, c.rules[i]);
    }
    assert Vals(c.rules, req, env) == Vals(c.rules, req, env');
    forall k | 0 <= k < |c.exceptions|
      ensures Vals(c.exceptions[k], req, env) == Vals(c.exceptions[k], req, env')
    {
      forall i | 0 <= i < |c.exceptions[k]|
        ensures Eval(c.exceptions[k][i], req, env) == Eval(c.exceptions[k][i], req, env')
      {
        EnvsAgreeOn(d, d', c.variables, req, c.exceptions[k][i]);
      }
    }
    assert ExceptionVals(c.exceptions, req, env) == ExceptionVals(c.exceptions, req, env');
  }

  method Match(conditions: seq<Expr>, req: Request) returns (matched: bool, errs: seq<Val>)
    ensures !matched ==> errs == []
    ensures MatchOf(Vals(conditions, req, map[])) ==
            if !matched then Skipped else if errs == [] then Matched else Unclear
  {
    errs := [];
    var i := 0;
    while i < |conditions|
      invariant 0 <= i <= |conditions|
      invariant forall j :: 0 <= j < i ==> Eval(conditions[j], req, map[]) != Bool(false)
      invariant errs == [] <==> forall j :: 0 <= j < i ==> Eval(conditions[j], req, map[]) == Bool(true)
    {
      var v := Eval(conditions[i], req, map[]);
      if !v.Bool? {
        errs := errs + [v];
      } else if !v.b {
        assert Vals(conditions, req, map[])[i] == Bool(false);
        return false, [];
      }
      i := i + 1;
    }
    matched := true;
    if errs != [] {
      var j :| 0 <= j < |conditions| && Eval(conditions[j], req, map[]) != Bool(true);
      assert Vals(conditions, req, map[])[j] != Bool(true);
    }
  }

  /** All conditions of one exception, up to the first one that fails. */
  method CheckException(vars: LazyVariables, conditions: seq<Expr>, ghost decls: seq<Declaration>)
    returns (broken: bool, exceptionMatches: bool)
    requires vars.Consistent(decls)
    requires forall i :: 0 <= i < |conditions| ==> Reads(conditions[i]) <= NamesOf(decls)
    modifies vars`memo, vars`forced
    ensures vars.Consistent(decls) && vars.callbacks == old(vars.callbacks)
    ensures var vals := Vals(conditions, vars.request, EnvOf(decls, vars.request));
      && (broken <==> !AllBool(vals))
      && (!broken ==> (exceptionMatches <==> AllTrue(vals)))
  {
    ghost var vals := Vals(conditions, vars.request, EnvOf(decls, vars.request));
    exceptionMatches := true;
    assert decls[..|decls|] == decls;
    var i := 0;
    while i < |conditions|
      invariant 0 <= i <= |conditions|
      invariant vars.Consistent(decls) && vars.callbacks == old(vars.callbacks)
      invariant forall j :: 0 <= j < i ==> vals[j].Bool?
      invariant exceptionMatches <==> forall j :: 0 <= j < i ==> vals[j] == Bool(true)
    {
      var v := vars.Run(conditions[i], decls, |decls|);
      if !v.Bool? {
        assert !vals[i].Bool?;
        return true, false;
      }
      if !v.b {
        exceptionMatches := false;
      }
      i := i + 1;
    }
    broken := false;
  }

  /** The whole evaluation, with variables evaluated on first use, reports what the
      eager in-order reading of the policy means. */
  method Evaluate(c: CompiledPolicy, kind: Mode, req: Request, ghost decls: seq<Declaration>) returns (r: Evaluation)
    requires RunsOver(c, decls)
    ensures r == MeaningOf(c, decls, kind, req)
  {
    r := EvaluateRules(c, kind, req, decls);
    if r.error && c.failurePolicy == Fail {
      return FAILED;
    }
    r := Evaluation(r.result, false);
  }

  method EvaluateRules(c: CompiledPolicy, kind: Mode, req: Request, ghost decls: seq<Declaration>)
    returns (r: Evaluation)
    requires RunsOver(c, decls)
    ensures var env := EnvOf(decls, req);
            r == OutcomeOf(Vals(c.matchConditions, req, map[]), ExceptionVals(c.exceptions, req, env),
                           Vals(c.rules, req, env), kind)
  {
    var matched, errs := Match(c.matchConditions, req);
    if errs != [] {
      return FAILED;
    } else if !matched {
      return NO_MATCH;
    }
    var vars := new LazyVariables(req);
    vars.Fill(c.variables);
    var verdict := TryExceptions(vars, c.exceptions, decls);
    if verdict == Broken {
      return FAILED;
    } else if verdict == Exempt {
      return NO_MATCH;
    }
    r := FirstRule(vars, c.rules, kind, decls);
  }

  /** The request against the exceptions in order, up to the one that decides. */
  method TryExceptions(vars: LazyVariables, exceptions: seq<seq<Expr>>, ghost decls: seq<Declaration>)
    returns (verdict: ExceptionVerdict)
    requires vars.Consistent(decls)
    requires forall k, i :: 0 <= k < |exceptions| && 0 <= i < |exceptions[k]| ==>
      Reads(exceptions[k][i]) <= NamesOf(decls)
    modifies vars`memo, vars`forced
    ensures vars.Consistent(decls) && vars.callbacks == old(vars.callbacks)
    ensures verdict == ExceptionsOf(ExceptionVals(exceptions, vars.request, EnvOf(decls, vars.request)))
  {
    ghost var vs := ExceptionVals(exceptions, vars.request, EnvOf(decls, vars.request));
    var k := 0;
    while k < |exceptions|
      invariant 0 <= k <= |exceptions|
      invariant vars.Consistent(decls) && vars.callbacks == old(vars.callbacks)
      invariant ExceptionsOf(vs) == ExceptionsOf(vs[k..])
    {
      var broken, exceptionMatches := CheckException(vars, exceptions[k], decls);
      assert vs[k..][0] == vs[k] && vs[k..][1..] == vs[k + 1..];
      if broken {
        return Broken;
      }
      if exceptionMatches {
        return Exempt;
      }
      k := k + 1;
    }
    verdict := NotExempt;
  }

  method FirstRule(vars: LazyVariables, rules: seq<Expr>, kind: Mode, ghost decls: seq<Declaration>) returns (r: Evaluation)
    requires vars.Consistent(decls)
    requires forall i :: 0 <= i < |rules| ==> Reads(rules[i]) <= NamesOf(decls)
    modifies vars`memo, vars`forced
    ensures r == RulesOf(Vals(rules, vars.request, EnvOf(decls, vars.request)), kind)
  {
    ghost var vals := Vals(rules, vars.request, EnvOf(decls, vars.request));
    assert decls[..|decls|] == decls;
    var i := 0;
    while i < |rules|
      invariant 0 <= i <= |rules|
      invariant vars.Consistent(decls)
      invariant RulesOf(vals, kind) == RulesOf(vals[i..], kind)
    {
      var v := vars.Run(rules[i], decls, |decls|);
      assert vals[i..][0] == v && vals[i..][1..] == vals[i + 1..];
      if v.Error? {
        return FAILED;
      }
      if !v.Null? {
        if v.Replied? && v.response.mode == kind {
          return Evaluation(Some(v.response), false);
        }
        return FAILED;
      }
      i := i + 1;
    }
    r := NO_MATCH;
  }

  // ------------------------------------------------------- laws of the whole

  lemma MeaningIsOver(p: ValidatingPolicy, order: seq<Declaration>, exs: seq<PolicyException>, kind: Mode, req: Request)
    requires RunsOver(Assembled(p, exs), order)
    ensures Meaning(p, exs, kind, req) == MeaningOver(p, order, exs, kind, req)
  {
    MeaningIgnoresVariableOrder(Assembled(p, exs), ChosenOrder(p, exs), order, kind, req);
  }

  /** Every one of the expressions is true. */
  ghost predicate Hold(es: seq<Expr>, req: Request, env: map<Name, Val>) {
    forall i :: 0 <= i < |es| ==> Eval(es[i], req, env) == Bool(true)
  }

  /** One of the expressions is not a boolean. */
  ghost predicate SomeFails(es: seq<Expr>, req: Request, env: map<Name, Val>) {
    exists i :: 0 <= i < |es| && !Eval(es[i], req, env).Bool?
  }

  /** The conditions of the policy hold, and none of the exceptions exempts or fails. */
  ghost predicate ReachesRules(p: ValidatingPolicy, exs: seq<PolicyException>, req: Request, env: map<Name, Val>) {
    && Hold(p.matchConditions, req, map[])
    && forall k :: 0 <= k < |exs| ==> !Hold(exs[k].matchConditions, req, env) && !SomeFails(exs[k].matchConditions, req, env)
  }

  /** Rule `i` is the first that is not null. */
  ghost predicate Speaks(rules: seq<Expr>, i: nat, req: Request, env: map<Name, Val>) {
    && i < |rules| && !Eval(rules[i], req, env).Null?
    && forall j :: 0 <= j < i ==> Eval(rules[j], req, env).Null?
  }

  /** The first validation that says something is this response, of the right kind. */
  ghost predicate Answers(p: ValidatingPolicy, exs: seq<PolicyException>, kind: Mode, req: Request,
                          env: map<Name, Val>, r: Response) {
    && ReachesRules(p, exs, req, env) && r.mode == kind
    && exists i: nat :: Speaks(p.validations, i, req, env) && Eval(p.validations[i], req, env) == Replied(r)
  }

  /** The evaluation of the policy comes to an error. */
  ghost predicate Fault(p: ValidatingPolicy, exs: seq<PolicyException>, kind: Mode, req: Request, env: map<Name, Val>) {
    || (&& (forall i :: 0 <= i < |p.matchConditions| ==> Eval(p.matchConditions[i], req, map[]) != Bool(false))
        && !Hold(p.matchConditions, req, map[]))
    || (&& Hold(p.matchConditions, req, map[])
        && exists k :: 0 <= k < |exs| && SomeFails(exs[k].matchConditions, req, env) &&
                       forall j :: 0 <= j < k ==> !Hold(exs[j].matchConditions, req, env))
    || (&& ReachesRules(p, exs, req, env)
        && exists i: nat :: Speaks(p.validations, i, req, env) &&
             var v := Eval(p.validations[i], req, env); !(v.Replied? && v.response.mode == kind))
  }

  /** The policy does not apply, or is exempted from, or has nothing to say. */
  ghost predicate Silent(p: ValidatingPolicy, exs: seq<PolicyException>, req: Request, env: map<Name, Val>) {
    || (exists i :: 0 <= i < |p.matchConditions| && Eval(p.matchConditions[i], req, map[]) == Bool(false))
    || (&& Hold(p.matchConditions, req, map[])
        && exists k :: 0 <= k < |exs| && Hold(exs[k].matchConditions, req, env) &&
                       forall j :: 0 <= j <= k ==> !SomeFails(exs[j].matchConditions, req, env))
    || (&& ReachesRules(p, exs, req, env)
        && forall i :: 0 <= i < |p.validations| ==> Eval(p.validations[i], req, env).Null?)
  }

  /** The values that the meaning is made of, told from the expressions. */
  lemma ValuesTold(p: ValidatingPolicy, exs: seq<PolicyException>, req: Request, env: map<Name, Val>)
    ensures var conditions, vs := Vals(p.matchConditions, req, map[]), ExceptionVals(Conditions(exs), req, env);
      && (AllTrue(conditions) <==> Hold(p.matchConditions, req, map[]))
      && |vs| == |exs|
      && (forall k :: 0 <= k < |exs| ==> (AllTrue(vs[k]) <==> Hold(exs[k].matchConditions, req, env)))
      && (forall k :: 0 <= k < |exs| ==> (AllBool(vs[k]) <==> !SomeFails(exs[k].matchConditions, req, env)))
  {
    var vs := ExceptionVals(Conditions(exs), req, env);
    forall k | 0 <= k < |exs|
      ensures AllTrue(vs[k]) <==> Hold(exs[k].matchConditions, req, env)
      ensures AllBool(vs[k]) <==> !SomeFails(exs[k].matchConditions, req, env)
    {
      assert vs[k] == Vals(exs[k].matchConditions, req, env);
    }
  }

  lemma SpeaksTold(rules: seq<Expr>, req: Request, env: map<Name, Val>)
    ensures forall i: nat :: Speaks(rules, i, req, env) <==> IsFirst(Vals(rules, req, env), i)
  {
  }

  /** A policy answers with a response exactly when its conditions hold, no exception
      decides, and the first of its validations that is not null gives that response, of
      the right kind. */
  lemma PolicyAnswersExactly(p: ValidatingPolicy, order: seq<Declaration>, exs: seq<PolicyException>, kind: Mode,
                             req: Request, r: Response)
    ensures MeaningOver(p, order, exs, kind, req) == Evaluation(Some(r), false) <==>
            Answers(p, exs, kind, req, EnvOf(order, req), r)
  {
    AnswerExactly(p, exs, kind, req, EnvOf(order, req), r);
    NeverBoth(Vals(p.matchConditions, req, map[]), ExceptionVals(Conditions(exs), req, EnvOf(order, req)),
              Vals(p.validations, req, EnvOf(order, req)), kind);
  }

  lemma AnswerExactly(p: ValidatingPolicy, exs: seq<PolicyException>, kind: Mode, req: Request, env: map<Name, Val>,
                      r: Response)
    ensures OutcomeOf(Vals(p.matchConditions, req, map[]), ExceptionVals(Conditions(exs), req, env),
                      Vals(p.validations, req, env), kind) == Evaluation(Some(r), false) <==>
            Answers(p, exs, kind, req, env, r)
  {
    var rules := Vals(p.validations, req, env);
    ValuesTold(p, exs, req, env);
    SpeaksTold(p.validations, req, env);
    ResultExactly(Vals(p.matchConditions, req, map[]), ExceptionVals(Conditions(exs), req, env), rules, kind, r);
    if i :| 0 <= i < |rules| && rules[i] == Replied(r) && forall j :: 0 <= j < i ==> rules[j].Null? {
      assert IsFirst(rules, i);
    }
  }

  /** It reports an error exactly when its evaluation comes to one and the failure policy,
      which is Fail unless it is set, does not ignore it. */
  lemma PolicyFailsExactly(p: ValidatingPolicy, order: seq<Declaration>, exs: seq<PolicyException>, kind: Mode,
                           req: Request)
    ensures MeaningOver(p, order, exs, kind, req) == Evaluation(None, true) <==>
            p.failurePolicy != Some(Ignore) && Fault(p, exs, kind, req, EnvOf(order, req))
  {
    FaultExactly(p, exs, kind, req, EnvOf(order, req));
    NeverBoth(Vals(p.matchConditions, req, map[]), ExceptionVals(Conditions(exs), req, EnvOf(order, req)),
              Vals(p.validations, req, EnvOf(order, req)), kind);
  }

  /** And it reports nothing exactly when it is silent, or an error is ignored. */
  lemma PolicySilentExactly(p: ValidatingPolicy, order: seq<Declaration>, exs: seq<PolicyException>, kind: Mode,
                            req: Request)
    ensures var env := EnvOf(order, req);
      MeaningOver(p, order, exs, kind, req) == Evaluation(None, false) <==>
        Silent(p, exs, req, env) || (p.failurePolicy == Some(Ignore) && Fault(p, exs, kind, req, env))
  {
    var env := EnvOf(order, req);
    FaultExactly(p, exs, kind, req, env);
    SilentExactly(p, exs, kind, req, env);
    NeverBoth(Vals(p.matchConditions, req, map[]), ExceptionVals(Conditions(exs), req, env),
              Vals(p.validations, req, env), kind);
  }

  lemma FaultExactly(p: ValidatingPolicy, exs: seq<PolicyException>, kind: Mode, req: Request, env: map<Name, Val>)
    ensures OutcomeOf(Vals(p.matchConditions, req, map[]), ExceptionVals(Conditions(exs), req, env),
                      Vals(p.validations, req, env), kind) == Evaluation(None, true) <==>
            Fault(p, exs, kind, req, env)
  {
    ValuesTold(p, exs, req, env);
    SpeaksTold(p.validations, req, env);
    FalseTold(p.matchConditions, req);
    FailedExactly(Vals(p.matchConditions, req, map[]), ExceptionVals(Conditions(exs), req, env),
                  Vals(p.validations, req, env), kind);
  }

  lemma FalseTold(es: seq<Expr>, req: Request)
    ensures Bool(false) in Vals(es, req, map[]) <==> exists i :: 0 <= i < |es| && Eval(es[i], req, map[]) == Bool(false)
  {
    if i :| 0 <= i < |es| && Eval(es[i], req, map[]) == Bool(false) {
      assert Vals(es, req, map[])[i] == Bool(false);
    }
  }

  lemma SilentExactly(p: ValidatingPolicy, exs: seq<PolicyException>, kind: Mode, req: Request, env: map<Name, Val>)
    ensures OutcomeOf(Vals(p.matchConditions, req, map[]), ExceptionVals(Conditions(exs), req, env),
                      Vals(p.validations, req, env), kind) == Evaluation(None, false) <==>
            Silent(p, exs, req, env)
  {
    ValuesTold(p, exs, req, env);
    NoMatchExactly(Vals(p.matchConditions, req, map[]), ExceptionVals(Conditions(exs), req, env),
                   Vals(p.validations, req, env), kind);
    FalseTold(p.matchConditions, req);
  }

  /** Switching the failure policy to Ignore turns exactly the failed evaluations into
      no-matches and leaves every other one as it was. */
  lemma IgnoreTurnsErrorsIntoNoMatch(p: ValidatingPolicy, order: seq<Declaration>, exs: seq<PolicyException>,
                                     kind: Mode, req: Request)
    ensures var strict := MeaningOver(p.(failurePolicy := Some(Fail)), order, exs, kind, req);
            MeaningOver(p.(failurePolicy := Some(Ignore)), order, exs, kind, req) ==
            if strict.error then NO_MATCH else strict
  {
    var env := EnvOf(order, req);
    NeverBoth(Vals(p.matchConditions, req, map[]), ExceptionVals(Conditions(exs), req, env),
              Vals(p.validations, req, env), kind);
  }

  /** A variable whose program has its type in the scope holds a value of that type. */
  lemma {:induction false} VariableTyped(order: seq<Declaration>, c: Checker, req: Request, i: nat)
    requires Unique(order) && Ordered(order) && Conforms(req, c.schema) && i < |order|
    requires forall j :: 0 <= j < |order| ==>
      order[j].name in c.scope && TypeOf(order[j].expression, c) == Some(c.scope[order[j].name])
    ensures order[i].name in EnvOf(order, req) && HasType(EnvOf(order, req)[order[i].name], c.scope[order[i].name])
  {
    var env := EnvOf(order, req);
    EnvFixpoint(order, req, i);
    forall n | n in Reads(order[i].expression) && n in c.scope ensures n in env && HasType(env[n], c.scope[n]) {
      assert n in NamesOf(order[..i]);
      var k :| 0 <= k < i && order[..i][k].name == n;
      VariableTyped(order, c, req, k);
    }
    EvalHasType(order[i].expression, c, req, env);
  }

  /** If no repeated name changed its type, the variables that run inhabit the scope. */
  lemma EnvInhabits(schemas: Schemas, p: ValidatingPolicy, order: seq<Declaration>, req: Request)
    requires ScopeOf(schemas, p.mode, p.variables).Some? && Conforms(req, schemas(p.mode))
    requires var scope := ScopeOf(schemas, p.mode, p.variables).value;
             KeepsTypes(schemas, p.mode, p.variables, scope)
    requires Unique(order) && Ordered(order) && Declares(order, Programs(p.variables))
    ensures Inhabits(EnvOf(order, req), ScopeOf(schemas, p.mode, p.variables).value, NamesOf(order))
  {
    var scope := ScopeOf(schemas, p.mode, p.variables).value;
    SurvivorsKeepTypes(schemas, p.mode, p.variables, scope);
    forall n | n in NamesOf(order) && n in scope ensures n in EnvOf(order, req) && HasType(EnvOf(order, req)[n], scope[n]) {
      var i :| 0 <= i < |order| && order[i].name == n;
      VariableTyped(order, CheckerOf(schemas, p.mode, scope), req, i);
    }
  }

  /** In a compiled policy whose repeated names, if any, keep their types, every condition
      is a boolean or an error, and every rule is null, an error or a response of the
      policy's own mode: the branches for other values are never taken when the policy
      runs in its own mode. */
  lemma CompiledIsWellTyped(schemas: Schemas, p: ValidatingPolicy, order: seq<Declaration>, exs: seq<PolicyException>,
                            req: Request)
    requires Accepts(schemas, p) && ExceptionsCompile(schemas, p, exs) && Conforms(req, schemas(p.mode))
    requires RunsOver(Assembled(p, exs), order)
    requires KeepsTypes(schemas, p.mode, p.variables, ScopeOf(schemas, p.mode, p.variables).value)
    ensures var env := EnvOf(order, req);
      && (forall v :: v in Vals(p.matchConditions, req, map[]) ==> v.Bool? || v.Error?)
      && (forall k, i :: 0 <= k < |exs| && 0 <= i < |exs[k].matchConditions| ==>
            var v := Eval(exs[k].matchConditions[i], req, env); v.Bool? || v.Error?)
      && (forall v :: v in Vals(p.validations, req, env) ==>
            v.Null? || v.Error? || (v.Replied? && v.response.mode == p.mode))
  {
    var env := EnvOf(order, req);
    EnvInhabits(schemas, p, order, req);
    var c := CheckerOf(schemas, p.mode, ScopeOf(schemas, p.mode, p.variables).value);
    forall i | 0 <= i < |p.matchConditions|
      ensures HasType(Eval(p.matchConditions[i], req, map[]), BoolT)
    {
      EvalHasType(p.matchConditions[i], CheckerOf(schemas, p.mode, map[]), req, map[]);
    }
    forall k, i | 0 <= k < |exs| && 0 <= i < |exs[k].matchConditions|
      ensures HasType(Eval(exs[k].matchConditions[i], req, env), BoolT)
    {
      assert ExceptionCompiles(c, exs[k]);
      assert Reads(Assembled(p, exs).exceptions[k][i]) <= NamesOf(order);
      EvalHasType(exs[k].matchConditions[i], c, req, env);
    }
    forall i | 0 <= i < |p.validations|
      ensures HasType(Eval(p.validations[i], req, env), NullT) ||
              HasType(Eval(p.validations[i], req, env), ReplyT(p.mode))
    {
      EvalHasType(p.validations[i], c, req, env);
    }
  }

  /** A repeated name that is not knotted can still change its type: the exception was
      checked against a boolean and runs over null. What runs fails; the variables in the
      order of their declarations would have given a no-match. */
  lemma RepeatedNameRetypes(schemas: Schemas, x: Name, z: Name, kind: Mode, req: Request)
    requires x != z
    ensures var p := ValidatingPolicy(Name("p"), "1", HTTP, None, [],
        [Declaration(x, BoolLit(true)), Declaration(z, Variable(x)), Declaration(x, NullLit)], []);
      var exs := [PolicyException([p.name], HTTP, [Variable(z)])];
      && Accepts(schemas, p) && ExceptionsCompile(schemas, p, exs)
      && RunsOver(Assembled(p, exs), [Declaration(x, NullLit), Declaration(z, Variable(x))])
      && Meaning(p, exs, kind, req) == FAILED
      && MeaningOver(p, p.variables, exs, kind, req) == NO_MATCH
  {
    var d0, d1, d2 := Declaration(x, BoolLit(true)), Declaration(z, Variable(x)), Declaration(x, NullLit);
    var p := ValidatingPolicy(Name("p"), "1", HTTP, None, [], [d0, d1, d2], []);
    var ex := PolicyException([p.name], HTTP, [Variable(z)]);
    DeclaredThrice(schemas, HTTP, d0, d1, d2, req);
    RunsLastTwo(p, ex, d1, d2, req);
    MeaningIsOver(p, [d2, d1], [ex], kind, req);
    OneException(p, [d2, d1], ex, z, kind, req);
    OneException(p, p.variables, ex, z, kind, req);
  }

  /** What one exception that reads one variable makes of a policy without conditions
      and rules. */
  lemma OneException(p: ValidatingPolicy, order: seq<Declaration>, ex: PolicyException, z: Name, kind: Mode, req: Request)
    requires p.matchConditions == [] && p.validations == [] && p.failurePolicy.None?
    requires ex.matchConditions == [Variable(z)] && z in EnvOf(order, req)
    ensures MeaningOver(p, order, [ex], kind, req) == if EnvOf(order, req)[z].Bool? then NO_MATCH else FAILED
  {
    var env := EnvOf(order, req);
    var vs := ExceptionVals(Conditions([ex]), req, env);
    assert vs[0] == [env[z]] && vs[1..] == [];
    assert vs[0][0] == env[z];
    assert AllBool(vs[0]) <==> env[z].Bool?;
    assert ExceptionsOf(vs[1..]) == NotExempt && RulesOf(Vals([], req, env), kind) == NO_MATCH;
    assert MatchOf(Vals([], req, map[])) == Matched;
  }

  lemma RunsLastTwo(p: ValidatingPolicy, ex: PolicyException, d1: Declaration, d2: Declaration, req: Request)
    requires p.validations == [] && Programs(p.variables) == map[d1.name := d1.expression, d2.name := d2.expression]
    requires d1.name != d2.name && d1.expression == Variable(d2.name) && d2.expression == NullLit
    requires ex.matchConditions == [Variable(d1.name)]
    ensures RunsOver(Assembled(p, [ex]), [d2, d1])
    ensures EnvOf([d2, d1], req) == map[d2.name := Null, d1.name := Null]
  {
    var order := [d2, d1];
    assert order[..1] == [d2] && [d2][..0] == [] && order[..0] == [];
    assert d2.name in NamesOf([d2]) by { assert [d2][0] == d2; }
    assert d1.name in NamesOf(order) by { assert order[1] == d1; }
    assert EnvOf([d2], req) == map[d2.name := Null];
  }

  lemma DeclaredThrice(schemas: Schemas, mode: Mode, d0: Declaration, d1: Declaration, d2: Declaration, req: Request)
    requires d0.expression == BoolLit(true) && d1.expression == Variable(d0.name) && d2.expression == NullLit
    requires d2.name == d0.name != d1.name
    ensures ScopeOf(schemas, mode, [d0, d1, d2]) == Some(map[d2.name := NullT, d1.name := BoolT])
    ensures Programs([d0, d1, d2]) == map[d1.name := d1.expression, d2.name := d2.expression]
    ensures EnvOf([d0, d1, d2], req) == map[d2.name := Null, d1.name := Bool(true)]
  {
    assert [d0, d1, d2][..2] == [d0, d1];
    DeclaredTwice(schemas, mode, d0, d1, req);
    assert map[d0.name := BoolT, d1.name := BoolT][d2.name := NullT] == map[d2.name := NullT, d1.name := BoolT];
  }

  lemma DeclaredTwice(schemas: Schemas, mode: Mode, d0: Declaration, d1: Declaration, req: Request)
    requires d0.expression == BoolLit(true) && d1.expression == Variable(d0.name) && d0.name != d1.name
    ensures ScopeOf(schemas, mode, [d0, d1]) == Some(map[d0.name := BoolT, d1.name := BoolT])
    ensures Programs([d0, d1]) == map[d0.name := d0.expression, d1.name := d1.expression]
    ensures EnvOf([d0, d1], req) == map[d0.name := Bool(true), d1.name := Bool(true)]
  {
    assert [d0, d1][..1] == [d0] && [d0][..0] == [];
    assert ScopeOf(schemas, mode, [d0]) == Some(map[d0.name := BoolT]);
    assert Programs([d0]) == map[d0.name := BoolLit(true)];
    assert EnvOf([d0], req) == map[d0.name := Bool(true)];
  }

  /** The order of the exceptions shows: the match conditions hold, errors are reported,
      and one exception is all true on this request while another one fails. */
  ghost predicate OrderShows(p: ValidatingPolicy, order: seq<Declaration>, exs: seq<PolicyException>, req: Request) {
    && MatchOf(Vals(p.matchConditions, req, map[])) == Matched
    && p.failurePolicy != Some(Ignore)
    && Contested(ExceptionVals(Conditions(exs), req, EnvOf(order, req)))
  }

  /** Unless the order shows, the meaning depends on which exceptions there are only. */
  lemma MeaningOfMembers(p: ValidatingPolicy, order: seq<Declaration>, exs: seq<PolicyException>,
                         exs': seq<PolicyException>, kind: Mode, req: Request)
    requires forall ex :: ex in exs <==> ex in exs'
    requires !OrderShows(p, order, exs, req)
    ensures MeaningOver(p, order, exs, kind, req) == MeaningOver(p, order, exs', kind, req)
  {
    var env := EnvOf(order, req);
    var vs, vs' := ExceptionVals(Conditions(exs), req, env), ExceptionVals(Conditions(exs'), req, env);
    ValsOfSame(exs, exs', req, env);
    ValsOfSame(exs', exs, req, env);
    if Contested(vs) {
      ContestedVerdict(vs);
      ContestedVerdict(vs');
    } else {
      UncontestedMembers(vs, vs');
    }
  }

  /** The exception at `i` decides when it comes first and every condition matches. */
  lemma FirstExceptionDecides(p: ValidatingPolicy, order: seq<Declaration>, exs: seq<PolicyException>, i: nat,
                              kind: Mode, req: Request)
    requires i < |exs| && MatchOf(Vals(p.matchConditions, req, map[])) == Matched && p.failurePolicy != Some(Ignore)
    ensures var vals := Vals(exs[i].matchConditions, req, EnvOf(order, req));
      && (AllTrue(vals) ==> MeaningOver(p, order, Ordering.ToFront(exs, i), kind, req) == NO_MATCH)
      && (!AllBool(vals) ==> MeaningOver(p, order, Ordering.ToFront(exs, i), kind, req) == FAILED)
  {
    var env := EnvOf(order, req);
    assert ExceptionVals(Conditions(Ordering.ToFront(exs, i)), req, env)[0] == Vals(exs[i].matchConditions, req, env);
  }

  /** Over any order of the variables, the meaning is the same for every order of the
      exceptions exactly when that order does not show. */
  lemma MeaningIgnoresOrderExactly(p: ValidatingPolicy, order: seq<Declaration>, exs: seq<PolicyException>,
                                   kind: Mode, req: Request)
    ensures (forall exs' :: multiset(exs') == multiset(exs) ==>
               MeaningOver(p, order, exs', kind, req) == MeaningOver(p, order, exs, kind, req))
            <==> !OrderShows(p, order, exs, req)
  {
    if OrderShows(p, order, exs, req) {
      var i, j := ContestedBy(exs, req, EnvOf(order, req));
      Ordering.ToFrontPermutes(exs, i);
      Ordering.ToFrontPermutes(exs, j);
      FirstExceptionDecides(p, order, exs, i, kind, req);
      FirstExceptionDecides(p, order, exs, j, kind, req);
      assert MeaningOver(p, order, Ordering.ToFront(exs, i), kind, req) !=
             MeaningOver(p, order, Ordering.ToFront(exs, j), kind, req);
    } else {
      forall exs' | multiset(exs') == multiset(exs)
        ensures MeaningOver(p, order, exs', kind, req) == MeaningOver(p, order, exs, kind, req)
      {
        Ordering.PermutationMembers(exs, exs');
        MeaningOfMembers(p, order, exs, exs', kind, req);
      }
    }
  }

  lemma ContestedBy(exs: seq<PolicyException>, req: Request, env: map<Name, Val>) returns (i: nat, j: nat)
    requires Contested(ExceptionVals(Conditions(exs), req, env))
    ensures i < |exs| && AllTrue(Vals(exs[i].matchConditions, req, env))
    ensures j < |exs| && !AllBool(Vals(exs[j].matchConditions, req, env))
  {
    var vs := ExceptionVals(Conditions(exs), req, env);
    var v :| v in vs && AllTrue(v);
    var w :| w in vs && !AllBool(w);
    i :| 0 <= i < |vs| && vs[i] == v;
    j :| 0 <= j < |vs| && vs[j] == w;
  }

  /** A policy without conditions, and two exceptions that compile: one exempts every
      request, the other reads a boolean field that this request does not carry. Their
      order decides between a no-match and an error. */
  lemma ExceptionOrderShows(schemas: Schemas, field: string, kind: Mode)
    requires field in schemas(HTTP) && schemas(HTTP)[field] == BoolT
    ensures var p := ValidatingPolicy(Name("p"), "1", HTTP, None, [], [], []);
      var always := PolicyException([p.name], HTTP, [BoolLit(true)]);
      var failing := PolicyException([p.name], HTTP, [ObjectField(field)]);
      && Accepts(schemas, p) && ExceptionsCompile(schemas, p, [always, failing])
      && Conforms(map[], schemas(HTTP))
      && Meaning(p, [always, failing], kind, map[]) == NO_MATCH
      && Meaning(p, [failing, always], kind, map[]) == FAILED
  {
    var p := ValidatingPolicy(Name("p"), "1", HTTP, None, [], [], []);
    var always := PolicyException([p.name], HTTP, [BoolLit(true)]);
    var failing := PolicyException([p.name], HTTP, [ObjectField(field)]);
    AlwaysAndFailing(p, always, failing, field, kind);
    RunsWithoutVariables(p, [always, failing], kind, map[]);
    RunsWithoutVariables(p, [failing, always], kind, map[]);
  }

  lemma AlwaysAndFailing(p: ValidatingPolicy, always: PolicyException, failing: PolicyException, field: string, kind: Mode)
    requires p.matchConditions == [] && p.failurePolicy.None?
    requires always.matchConditions == [BoolLit(true)] && failing.matchConditions == [ObjectField(field)]
    ensures MeaningOver(p, [], [always, failing], kind, map[]) == NO_MATCH
    ensures MeaningOver(p, [], [failing, always], kind, map[]) == FAILED
  {
    var exs := [always, failing];
    assert Ordering.ToFront(exs, 0) == [always, failing] && Ordering.ToFront(exs, 1) == [failing, always];
    FirstExceptionDecides(p, [], exs, 0, kind, map[]);
    FirstExceptionDecides(p, [], exs, 1, kind, map[]);
    assert !Vals(failing.matchConditions, map[], map[])[0].Bool?;
  }

  /** A policy and exceptions that read no variable need none. */
  lemma RunsWithoutVariables(p: ValidatingPolicy, exs: seq<PolicyException>, kind: Mode, req: Request)
    requires forall i :: 0 <= i < |p.validations| ==> Reads(p.validations[i]) == {}
    requires forall k, i :: 0 <= k < |exs| && 0 <= i < |exs[k].matchConditions| ==> Reads(exs[k].matchConditions[i]) == {}
    ensures RunsOver(Assembled(p, exs), []) && Meaning(p, exs, kind, req) == MeaningOver(p, [], exs, kind, req)
  {
    MeaningIsOver(p, [], exs, kind, req);
  }

  lemma ValsOfSame(exs: seq<PolicyException>, exs': seq<PolicyException>, req: Request, env: map<Name, Val>)
    requires forall ex :: ex in exs ==> ex in exs'
    ensures forall v :: v in ExceptionVals(Conditions(exs), req, env) ==> v in ExceptionVals(Conditions(exs'), req, env)
  {
    var vs, vs' := ExceptionVals(Conditions(exs), req, env), ExceptionVals(Conditions(exs'), req, env);
    forall v | v in vs ensures v in vs' {
      var k :| 0 <= k < |vs| && vs[k] == v;
      assert exs[k] in exs';
      var j :| 0 <= j < |exs'| && exs'[j] == exs[k];
      assert vs'[j] == v;
    }
  }
}
