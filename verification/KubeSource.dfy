/** The live policy source: the watch handlers feed the store, and loading goes
    through a cache keyed by `CacheKey.Key`. The cache is assumed to keep the first
    result computed under a key, to compute a result only for a missing key, to look the
    policies up in the order in which the store lists them, and to leave out a policy
    whose compilation is an error, keeping nothing for it. */
module KubeSource {
  import opened Api
  import Ordering
  import opened StoreModel
  import opened CacheKey
  import Store
  import Cel
  import Compiler

  /** One call of the compiler that succeeded: the policy, the exceptions in the order they
      came, and what came out. */
  datatype Compilation = Compilation(
    policy: ValidatingPolicy,
    exceptions: seq<PolicyException>,
    compiled: Compiler.CompiledPolicy)

  ghost predicate CompilesInOrder(keys: seq<Name>, c: Compilation, input: CompileInput) {
    && c.policy == input.policy && Store.Enumerates(c.exceptions, keys, input.exceptions)
    && c.compiled == Compiler.Assembled(c.policy, c.exceptions)
  }

  /** `c` compiles exactly `input`, each exception once, in some order. */
  ghost predicate Compiles(c: Compilation, input: CompileInput) {
    exists keys :: CompilesInOrder(keys, c, input)
  }

  /** The scope that the rules and exceptions of an accepted policy are checked in. */
  ghost function FinalChecker(schemas: Compiler.Schemas, p: ValidatingPolicy): Cel.Checker
    requires Compiler.Accepts(schemas, p)
  {
    Compiler.CheckerOf(schemas, p.mode, Compiler.ScopeOf(schemas, p.mode, p.variables).value)
  }

  ghost predicate AllCompile(schemas: Compiler.Schemas, input: CompileInput)
    requires Compiler.Accepts(schemas, input.policy)
  {
    forall k :: k in input.exceptions ==>
      Compiler.ExceptionCompiles(FinalChecker(schemas, input.policy), input.exceptions[k])
  }

  /** Compiling gives a policy. */
  ghost predicate Compilable(schemas: Compiler.Schemas, input: CompileInput) {
    Compiler.Accepts(schemas, input.policy) && AllCompile(schemas, input)
  }

  /** Compiling panics. */
  ghost predicate Crashing(schemas: Compiler.Schemas, input: CompileInput) {
    Compiler.Accepts(schemas, input.policy) && !AllCompile(schemas, input)
  }

  /** `ok` and `crash` tell which inputs compile and which panic. */
  ghost predicate JudgesAt(schemas: Compiler.Schemas, ok: Inputs, crash: Inputs, input: CompileInput) {
    (ok(input) <==> Compilable(schemas, input)) && (crash(input) <==> Crashing(schemas, input))
  }

  ghost predicate Judges(schemas: Compiler.Schemas, ok: Inputs, crash: Inputs) {
    forall input :: JudgesAt(schemas, ok, crash, input)
  }

  /** Whether a policy compiles depends on which exceptions come with it. */
  lemma CompilableInAnyOrder(schemas: Compiler.Schemas, input: CompileInput, exs: seq<PolicyException>, keys: seq<Name>)
    requires Store.Enumerates(exs, keys, input.exceptions)
    ensures Compilable(schemas, input) <==>
      Compiler.Accepts(schemas, input.policy) && Compiler.ExceptionsCompile(schemas, input.policy, exs)
    ensures Crashing(schemas, input) <==> Compiler.Panics(schemas, input.policy, exs)
  {
    Store.EnumeratesMembers(exs, keys, input.exceptions);
    if Compiler.Accepts(schemas, input.policy) {
      var c := FinalChecker(schemas, input.policy);
      forall i | 0 <= i < |exs| ensures AllCompile(schemas, input) ==> Compiler.ExceptionCompiles(c, exs[i]) {
        assert exs[i] in exs;
        var k :| k in input.exceptions && input.exceptions[k] == exs[i];
      }
      forall k | k in input.exceptions
        ensures Compiler.ExceptionsCompile(schemas, input.policy, exs) ==>
                Compiler.ExceptionCompiles(c, input.exceptions[k])
      {
        assert input.exceptions[k] in exs;
        var i :| 0 <= i < |exs| && exs[i] == input.exceptions[k];
      }
    }
  }

  // --------------------------------------------------------------- lookups

  type Lookup = (string, CompileInput)

  /** Under this key the cache holds a compilation of what the table holds. */
  ghost predicate HoldsUnder(entries: map<string, Compilation>, table: map<string, CompileInput>, k: string) {
    if k in table then k in entries && Compiles(entries[k], table[k]) else k !in entries
  }

  /** The cache is the memo table after `n` of these lookups. */
  ghost predicate CacheAt(entries: map<string, Compilation>, ls: seq<Lookup>, ok: Inputs, n: nat) {
    n <= |ls| && forall k :: HoldsUnder(entries, Table(ls, ok, n), k)
  }

  /** `answer` is what lookup number `n` answers. */
  ghost predicate Answers(answer: Option<Compilation>, ls: seq<Lookup>, ok: Inputs, n: nat) {
    n < |ls| && match Answer(ls, ok, n)
                case None => answer.None?
                case Some(input) => answer.Some? && Compiles(answer.value, input)
  }

  /** Lookup number `n` does not panic: it hits, or its compilation gives a policy or an
      error. */
  ghost predicate SurvivesAt(ls: seq<Lookup>, ok: Inputs, crash: Inputs, n: nat) {
    n < |ls| && (ls[n].0 in Table(ls, ok, n) || !crash(ls[n].1))
  }

  lemma Hit(entries: map<string, Compilation>, ls: seq<Lookup>, ok: Inputs, n: nat)
    requires CacheAt(entries, ls, ok, n) && n < |ls| && ls[n].0 in entries
    ensures CacheAt(entries, ls, ok, n + 1) && Answers(Some(entries[ls[n].0]), ls, ok, n)
  {
    assert HoldsUnder(entries, Table(ls, ok, n), ls[n].0);
  }

  lemma MissCompiled(entries: map<string, Compilation>, ls: seq<Lookup>, ok: Inputs, n: nat, c: Compilation)
    requires CacheAt(entries, ls, ok, n) && n < |ls| && ls[n].0 !in entries && ok(ls[n].1) && Compiles(c, ls[n].1)
    ensures CacheAt(entries[ls[n].0 := c], ls, ok, n + 1) && Answers(Some(c), ls, ok, n)
  {
    assert HoldsUnder(entries, Table(ls, ok, n), ls[n].0);
    var entries', table' := entries[ls[n].0 := c], Table(ls, ok, n + 1);
    forall k ensures HoldsUnder(entries', table', k) {
      assert HoldsUnder(entries, Table(ls, ok, n), k);
    }
  }

  lemma MissFailed(entries: map<string, Compilation>, ls: seq<Lookup>, ok: Inputs, n: nat)
    requires CacheAt(entries, ls, ok, n) && n < |ls| && ls[n].0 !in entries && !ok(ls[n].1)
    ensures CacheAt(entries, ls, ok, n + 1) && Answers(None, ls, ok, n)
  {
    assert HoldsUnder(entries, Table(ls, ok, n), ls[n].0);
  }

  /** Lookup number `n` was answered so, and did not panic. */
  ghost predicate Answered(answer: Option<Compilation>, ls: seq<Lookup>, ok: Inputs, crash: Inputs, n: nat) {
    Answers(answer, ls, ok, n) && SurvivesAt(ls, ok, crash, n)
  }

  /** The policies that a load hands out. */
  function Present(answers: seq<Option<Compilation>>): seq<Compilation> {
    if answers == [] then [] else
    Present(answers[..|answers| - 1]) +
    if answers[|answers| - 1].Some? then [answers[|answers| - 1].value] else []
  }

  lemma PresentAppended(answers: seq<Option<Compilation>>, a: Option<Compilation>)
    ensures Present(answers + [a]) == Present(answers) + if a.Some? then [a.value] else []
  {
    assert (answers + [a])[..|answers|] == answers;
  }

  /** Every present policy is stored under its own name. */
  ghost predicate OwnNames(v: StoreView) {
    forall p :: p in v.policies ==> v.policies[p].policy.name == p
  }

  lemma RunOwnNames(es: seq<Event>)
    requires NamesMatch(es)
    ensures OwnNames(Run(es))
  {
    forall p | p in Run(es).policies ensures Run(es).policies[p].policy.name == p {
      assert es[..|es|] == es;
      var w := LastWrite(es, |es|, p);
    }
  }

  lemma LookupsListed(v: StoreView)
    ensures |LookupsOf(v)| == |Ordering.Sorted(v.policies.Keys)|
  {
    Ordering.SortedLists(v.policies.Keys);
  }

  /** Lookup number `n` looks up the state that `v` holds for this policy. */
  ghost predicate IsLookup(v: StoreView, ls: seq<Lookup>, n: nat, policy: ValidatingPolicy) {
    && n < |ls| && policy.name in v.policies && v.policies[policy.name].policy == policy
    && ls[n] == (KeyOf(v.policies[policy.name]), InputOf(v.policies[policy.name]))
  }

  /** A load in progress: what the store holds; the lookups of this and earlier loads,
      those of this one from number `base` on; and which inputs compile and which panic. */
  datatype Loading = Loading(v: StoreView, ls: seq<Lookup>, base: nat, ok: Inputs, crash: Inputs) {
    ghost predicate Survives(n: nat) {
      SurvivesAt(ls, ok, crash, n)
    }

    /** What the lookups of the load answered; none panicked. */
    ghost predicate AllAnswer(answers: seq<Option<Compilation>>) {
      forall i :: 0 <= i < |answers| ==> Answered(answers[i], ls, ok, crash, base + i)
    }
  }

  lemma AnswerAppended(l: Loading, answers: seq<Option<Compilation>>, a: Option<Compilation>)
    requires l.AllAnswer(answers) && Answered(a, l.ls, l.ok, l.crash, l.base + |answers|)
    ensures l.AllAnswer(answers + [a])
  {
  }

  // ------------------------------------------------------------- the cache

  class CompileCache {
    const schemas: Compiler.Schemas
    var entries: map<string, Compilation>

    constructor (schemas: Compiler.Schemas)
      ensures this.schemas == schemas && entries == map[]
    {
      this.schemas, entries := schemas, map[];
    }

    /** One cache lookup, number `n`: a hit answers the stored compilation; a miss selects
        the exceptions under the store's lock and compiles, which may also fail, with
        nothing stored, or panic. */
    method CachedCompile(store: Store.CompositeStore, policy: ValidatingPolicy, ghost l: Loading, ghost n: nat)
      returns (answer: Option<Compilation>, crashed: bool)
      requires !store.mutex.held && store.View() == l.v && IsLookup(l.v, l.ls, n, policy)
      requires Judges(schemas, l.ok, l.crash) && CacheAt(entries, l.ls, l.ok, n)
      modifies this, store.mutex
      ensures !store.mutex.held
      ensures crashed ==> !l.Survives(n)
      ensures !crashed ==> CacheAt(entries, l.ls, l.ok, n + 1) && Answered(answer, l.ls, l.ok, l.crash, n)
    {
      crashed := false;
      ghost var ls, ok := l.ls, l.ok;
      assert JudgesAt(schemas, ok, l.crash, ls[n].1);
      assert HoldsUnder(entries, Table(ls, ok, n), ls[n].0);
      var key := store.KeyFunc(policy);
      if key.value in entries {
        Hit(entries, ls, ok, n);
        answer := Some(entries[key.value]);
      } else {
        var selected, order := store.SelectExceptions(policy);
        CompilableInAnyOrder(schemas, ls[n].1, selected.value, order);
        var outcome := Compiler.Compile(schemas, policy, selected.value);
        match outcome {
          case Compiled(compiled) =>
            var compilation := Compilation(policy, selected.value, compiled);
            assert CompilesInOrder(order, compilation, ls[n].1);
            MissCompiled(entries, ls, ok, n, compilation);
            entries := entries[key.value := compilation];
            answer := Some(compilation);
          case Rejected(_, _) =>
            MissFailed(entries, ls, ok, n);
            answer := None;
          case Panicked =>
            answer, crashed := None, true;
        }
      }
    }

    /** The load has looked up as many policies as there are answers, and hands out those
        that are present. */
    ghost predicate LoadedSoFar(l: Loading, answers: seq<Option<Compilation>>, loaded: seq<Compilation>)
      reads this
    {
      && CacheAt(entries, l.ls, l.ok, l.base + |answers|) && l.AllAnswer(answers)
      && loaded == Present(answers)
    }

    /** The next lookup of a load. */
    method LoadNext(store: Store.CompositeStore, policy: ValidatingPolicy, loaded: seq<Compilation>, ghost l: Loading,
                    ghost answers: seq<Option<Compilation>>)
      returns (loaded': seq<Compilation>, crashed: bool, ghost answer: Option<Compilation>)
      requires !store.mutex.held && store.View() == l.v && Judges(schemas, l.ok, l.crash)
      requires IsLookup(l.v, l.ls, l.base + |answers|, policy) && LoadedSoFar(l, answers, loaded)
      modifies this, store.mutex
      ensures !store.mutex.held
      ensures crashed ==> !l.Survives(l.base + |answers|)
      ensures !crashed ==> LoadedSoFar(l, answers + [answer], loaded')
    {
      var a;
      a, crashed := CachedCompile(store, policy, l, l.base + |answers|);
      answer := a;
      loaded' := if a.Some? then loaded + [a.value] else loaded;
      if !crashed {
        AnswerAppended(l, answers, a);
        PresentAppended(answers, a);
      }
    }

    /** The lookups of the listed policies, one after the other, unless one panics. */
    method LoadListed(store: Store.CompositeStore, listed: seq<Store.PolicyState>, ghost l: Loading)
      returns (loaded: seq<Compilation>, crashed: bool, ghost answers: seq<Option<Compilation>>)
      requires !store.mutex.held && store.View() == l.v && Judges(schemas, l.ok, l.crash)
      requires LoadedSoFar(l, [], [])
      requires forall i :: 0 <= i < |listed| ==> IsLookup(l.v, l.ls, l.base + i, listed[i].policy)
      modifies this, store.mutex
      ensures !store.mutex.held
      ensures crashed ==> |answers| < |listed| && !l.Survives(l.base + |answers|)
      ensures !crashed ==> |answers| == |listed| && LoadedSoFar(l, answers, loaded)
    {
      loaded, crashed, answers := [], false, [];
      var i := 0;
      while i < |listed|
        invariant 0 <= i <= |listed| && |answers| == i && !store.mutex.held
        invariant LoadedSoFar(l, answers, loaded)
      {
        ghost var answer;
        loaded, crashed, answer := LoadNext(store, listed[i].policy, loaded, l, answers);
        if crashed {
          return;
        }
        answers := answers + [answer];
        i := i + 1;
      }
    }

    /** The listed policies are those that the load looks up. */
    method List(store: Store.CompositeStore, ghost l: Loading) returns (listed: seq<Store.PolicyState>)
      requires !store.mutex.held && store.View() == l.v && OwnNames(l.v)
      requires l.base <= |l.ls| && l.ls[l.base..] == Keyed(LookupsOf(l.v))
      modifies store.mutex
      ensures !store.mutex.held && l.base + |listed| == |l.ls|
      ensures forall i :: 0 <= i < |listed| ==> IsLookup(l.v, l.ls, l.base + i, listed[i].policy)
    {
      store.ViewHolds();
      listed := store.Load();
      LookupsListed(l.v);
      forall i | 0 <= i < |listed| ensures IsLookup(l.v, l.ls, l.base + i, listed[i].policy) {
        LookupAt(l.v, i);
        assert l.ls[l.base + i] == Keyed(LookupsOf(l.v))[i];
      }
    }

    /** A load that no event interrupts: list the policies, then look each one up and
        compile what is missing. It hands out the policies that compile, in that order, or
        panics at the first lookup that misses and whose compilation panics. */
    method Load(store: Store.CompositeStore, ghost l: Loading)
      returns (loaded: seq<Compilation>, crashed: bool, ghost answers: seq<Option<Compilation>>)
      requires !store.mutex.held && store.View() == l.v && OwnNames(l.v) && Judges(schemas, l.ok, l.crash)
      requires l.base <= |l.ls| && l.ls[l.base..] == Keyed(LookupsOf(l.v)) && CacheAt(entries, l.ls, l.ok, l.base)
      modifies this, store.mutex
      ensures !store.mutex.held
      ensures crashed ==> l.base + |answers| < |l.ls| && !l.Survives(l.base + |answers|)
      ensures !crashed ==> l.base + |answers| == |l.ls| && LoadedSoFar(l, answers, loaded)
    {
      var listed := List(store, l);
      loaded, crashed, answers := LoadListed(store, listed, l);
    }
  }

  ghost function Ok(schemas: Compiler.Schemas): Inputs {
    (input: CompileInput) => Compilable(schemas, input)
  }

  ghost function Crash(schemas: Compiler.Schemas): Inputs {
    (input: CompileInput) => Crashing(schemas, input)
  }

  /** The next load of a run looks up what the store holds, after all earlier lookups. */
  ghost function NextLoad(ops: seq<Op>, schemas: Compiler.Schemas): Loading {
    var v := Run(Events(ops));
    Loading(v, Keyed(Lookups(ops) + LookupsOf(v)), |Lookups(ops)|, Ok(schemas), Crash(schemas))
  }

  /** `CompileCache.Load` can be called with it. */
  lemma NextLoadJudges(ops: seq<Op>, schemas: Compiler.Schemas)
    ensures Judges(schemas, NextLoad(ops, schemas).ok, NextLoad(ops, schemas).crash)
  {
  }

  /** A lookup that is answered as computing would answer it hands out its own input. */
  lemma AnsweredAsWanted(ls: seq<Lookup>, ok: Inputs, answer: Option<Compilation>, n: nat)
    requires Answers(answer, ls, ok, n) && Answer(ls, ok, n) == Wanted(ls[n].1, ok)
    ensures (answer.Some? <==> ok(ls[n].1)) && (answer.Some? ==> Compiles(answer.value, ls[n].1))
  {
  }

  lemma FreshAnswer(ops: seq<Op>, ok: Inputs, answer: Option<Compilation>, n: nat)
    requires EveryLoadFresh(ops, ok) && Answers(answer, Keyed(Lookups(ops)), ok, n)
    ensures n < |Lookups(ops)|
    ensures var input := InputOf(Lookups(ops)[n]);
      (answer.Some? <==> ok(input)) && (answer.Some? ==> Compiles(answer.value, input))
  {
    var pvs := Lookups(ops);
    assert Keyed(pvs)[n].1 == InputOf(pvs[n]);
    AnsweredAsWanted(Keyed(pvs), ok, answer, n);
  }

  /** The answer is the compilation of the input, or there is none. */
  ghost predicate IsCurrent(schemas: Compiler.Schemas, answer: Option<Compilation>, input: CompileInput) {
    (answer.Some? <==> Compilable(schemas, input)) && (answer.Some? ==> Compiles(answer.value, input))
  }

  /** The answers are current for the policies that `v` holds, in increasing order of their
      names. */
  ghost predicate AllCurrent(schemas: Compiler.Schemas, v: StoreView, answers: seq<Option<Compilation>>) {
    var names := Ordering.Sorted(v.policies.Keys);
    |answers| == |names| && forall i :: 0 <= i < |names| ==>
      names[i] in v.policies && IsCurrent(schemas, answers[i], InputOf(v.policies[names[i]]))
  }

  /** After any run of the live source with honest resource versions and separating
      keys, a load answers, for the present policies in increasing order of their names,
      which are the surviving ones: the compilation of the current content with the
      current exceptions if that compiles, and nothing otherwise. */
  lemma LoadedIsCurrent(ops: seq<Op>, schemas: Compiler.Schemas, answers: seq<Option<Compilation>>)
    requires NamesMatch(Events(ops)) && Honest(Events(ops))
    requires KeysSeparate(Lookups(ops + [Op.Load]), Ok(schemas))
    requires NextLoad(ops, schemas).AllAnswer(answers) && |answers| == |LookupsOf(Run(Events(ops)))|
    ensures AllCurrent(schemas, Run(Events(ops)), answers)
    ensures Ordering.Lists(Ordering.Sorted(Run(Events(ops)).policies.Keys), Surviving(Events(ops)).Keys)
  {
    var v := Run(Events(ops));
    FreshNext(ops, Ok(schemas));
    LookupsListed(v);
    Ordering.SortedLists(v.policies.Keys);
    RunKeepsSurvivors(Events(ops));
    forall i | 0 <= i < |answers|
      ensures var name := Ordering.Sorted(v.policies.Keys)[i];
        name in v.policies && IsCurrent(schemas, answers[i], InputOf(v.policies[name]))
    {
      LookupAt(v, i);
      assert Answered(answers[i], NextLoad(ops, schemas).ls, Ok(schemas), Crash(schemas), |Lookups(ops)| + i);
      CurrentAt(ops, Ok(schemas), answers[i], i);
    }
  }

  lemma FreshNext(ops: seq<Op>, ok: Inputs)
    requires NamesMatch(Events(ops)) && Honest(Events(ops)) && KeysSeparate(Lookups(ops + [Op.Load]), ok)
    ensures EveryLoadFresh(ops + [Op.Load], ok)
  {
    ExtendOps(ops, Op.Load);
    assert Events(ops) + [] == Events(ops);
    CachedLoadsFreshExactly(ops + [Op.Load], ok);
  }

  /** What lookup `i` of the next load of a fresh run answers. */
  lemma CurrentAt(ops: seq<Op>, ok: Inputs, answer: Option<Compilation>, i: nat)
    requires EveryLoadFresh(ops + [Op.Load], ok) && i < |LookupsOf(Run(Events(ops)))|
    requires Answers(answer, Keyed(Lookups(ops) + LookupsOf(Run(Events(ops)))), ok, |Lookups(ops)| + i)
    ensures var input := InputOf(LookupsOf(Run(Events(ops)))[i]);
      (answer.Some? <==> ok(input)) && (answer.Some? ==> Compiles(answer.value, input))
  {
    ExtendOps(ops, Op.Load);
    FreshAnswer(ops + [Op.Load], ok, answer, |Lookups(ops)| + i);
  }

  /** The store and the cache are what the run `ops` left. */
  ghost predicate RanTo(view: StoreView, entries: map<string, Compilation>, ok: Inputs, ops: seq<Op>) {
    view == Run(Events(ops)) && CacheAt(entries, Keyed(Lookups(ops)), ok, |Lookups(ops)|)
  }

  lemma {:induction false} TableCarriesOver(ok: Inputs, ls: seq<Lookup>, ls': seq<Lookup>, n: nat)
    requires n <= |ls| && ls <= ls'
    ensures Table(ls, ok, n) == Table(ls', ok, n)
  {
    if n == 0 {
    } else {
      TableCarriesOver(ok, ls, ls', n - 1);
    }
  }

  /** Handling an event and loading keep it so, as the contracts of the store's handlers
      and of `CompileCache.Load` describe what they leave. */
  lemma RunGoesOn(view: StoreView, entries: map<string, Compilation>, schemas: Compiler.Schemas, ops: seq<Op>, op: Op,
                  view': StoreView, entries': map<string, Compilation>)
    requires RanTo(view, entries, Ok(schemas), ops)
    requires op.Deliver? ==> view' == Step(view, op.event) && entries' == entries
    requires var l := NextLoad(ops, schemas);
             op.Load? ==> view' == view && CacheAt(entries', l.ls, l.ok, |l.ls|)
    ensures var l := NextLoad(ops, schemas);
            CacheAt(entries, l.ls, l.ok, l.base)
    ensures RanTo(view', entries', Ok(schemas), ops + [op])
  {
    ExtendOps(ops, op);
    TableCarriesOver(Ok(schemas), Keyed(Lookups(ops)), NextLoad(ops, schemas).ls, |Lookups(ops)|);
    if op.Deliver? {
      Extend(Events(ops), op.event);
      assert Lookups(ops) + [] == Lookups(ops);
    } else {
      assert Events(ops) + [] == Events(ops);
    }
  }
}
