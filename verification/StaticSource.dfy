/** The batch counterpart of the store: policies and exceptions read once from files,
    joined up front, and loaded all or not at all; and its agreement with the live source. */
module StaticSource {
  import opened Api
  import opened StoreModel
  import CacheKey
  import Store
  import opened KubeSource
  import Cel
  import Compiler
  import opened Evaluation
  import Ordering
  import Dispatch
  import Frontends

  predicate Matches(p: ValidatingPolicy, ex: PolicyException) {
    ex.mode == p.mode && p.name in ex.policyRefs
  }

  function Matched(p: ValidatingPolicy, exs: seq<PolicyException>): seq<PolicyException> {
    if exs == [] then [] else
    Matched(p, exs[..|exs| - 1]) + if Matches(p, exs[|exs| - 1]) then [exs[|exs| - 1]] else []
  }

  lemma {:induction false} MatchedMembers(p: ValidatingPolicy, exs: seq<PolicyException>)
    ensures forall ex :: ex in Matched(p, exs) <==> ex in exs && ex.mode == p.mode && p.name in ex.policyRefs
  {
    if exs == [] {
    } else {
      MatchedMembers(p, exs[..|exs| - 1]);
      assert exs == exs[..|exs| - 1] + [exs[|exs| - 1]];
    }
  }

  /** The files are gone through in order: matching distributes over concatenation. */
  lemma {:induction false} MatchedConcat(p: ValidatingPolicy, a: seq<PolicyException>, b: seq<PolicyException>)
    ensures Matched(p, a + b) == Matched(p, a) + Matched(p, b)
  {
    if b == [] {
      assert a + b == a;
    } else {
      assert (a + b)[..|a + b| - 1] == a + b[..|b| - 1];
      MatchedConcat(p, a, b[..|b| - 1]);
    }
  }

  lemma MatchedOne(p: ValidatingPolicy, ex: PolicyException)
    ensures Matched(p, [ex]) == if ex.mode == p.mode && p.name in ex.policyRefs then [ex] else []
  {
    assert [ex][..0] == [];
  }

  function MatchedAll(ps: seq<ValidatingPolicy>, exs: seq<PolicyException>): (policyMap: seq<seq<PolicyException>>)
    ensures |policyMap| == |ps|
  {
    seq(|ps|, i requires 0 <= i < |ps| => Matched(ps[i], exs))
  }

  /** The initial join: entry `i` belongs to the policy object `policies[i]`. */
  method NewStatic(policies: seq<ValidatingPolicy>, policyExceptions: seq<PolicyException>)
    returns (policyMap: seq<seq<PolicyException>>)
    ensures policyMap == MatchedAll(policies, policyExceptions)
  {
    policyMap := [];
    var i := 0;
    while i < |policies|
      invariant 0 <= i <= |policies| && |policyMap| == i
      invariant forall j :: 0 <= j < i ==> policyMap[j] == Matched(policies[j], policyExceptions)
    {
      var p := policies[i];
      var matchedExceptions: seq<PolicyException> := [];
      var j := 0;
      while j < |policyExceptions|
        invariant 0 <= j <= |policyExceptions|
        invariant matchedExceptions == Matched(p, policyExceptions[..j])
      {
        var ex := policyExceptions[j];
        assert policyExceptions[..j + 1][..j] == policyExceptions[..j];
        j := j + 1;
        if ex.mode != p.mode {
          continue;
        }
        var exceptionMatched := false;
        var k := 0;
        while k < |ex.policyRefs|
          invariant 0 <= k <= |ex.policyRefs|
          invariant !exceptionMatched && p.name !in ex.policyRefs[..k]
        {
          if ex.policyRefs[k] == p.name {
            exceptionMatched := true;
            break;
          }
          k := k + 1;
        }
        assert ex.policyRefs[..|ex.policyRefs|] == ex.policyRefs;
        if exceptionMatched {
          matchedExceptions := matchedExceptions + [ex];
        }
      }
      assert policyExceptions[..j] == policyExceptions;
      policyMap := policyMap + [matchedExceptions];
      i := i + 1;
    }
  }

  // ------------------------------------------------------------------ loading

  ghost predicate CompilesAlone(schemas: Compiler.Schemas, p: ValidatingPolicy, exs: seq<PolicyException>) {
    Compiler.Accepts(schemas, p) && Compiler.ExceptionsCompile(schemas, p, exs)
  }

  ghost predicate EachCompiles(schemas: Compiler.Schemas, ps: seq<ValidatingPolicy>, policyMap: seq<seq<PolicyException>>)
    requires |policyMap| == |ps|
  {
    forall i :: 0 <= i < |ps| ==> CompilesAlone(schemas, ps[i], policyMap[i])
  }

  function CompilationOf(p: ValidatingPolicy, exs: seq<PolicyException>): Compilation {
    Compilation(p, exs, Compiler.Assembled(p, exs))
  }

  function Compilations(ps: seq<ValidatingPolicy>, policyMap: seq<seq<PolicyException>>): (cs: seq<Compilation>)
    requires |policyMap| == |ps|
    ensures |cs| == |ps|
  {
    seq(|ps|, i requires 0 <= i < |ps| => CompilationOf(ps[i], policyMap[i]))
  }

  /** A load, with the map walked in the order `policies`: every policy is handed out, or
      none because one is rejected or panics; it panics at the first policy that does not
      compile if that one does. */
  method Load(schemas: Compiler.Schemas, policies: seq<ValidatingPolicy>, policyMap: seq<seq<PolicyException>>)
    returns (loaded: Option<seq<Compilation>>, crashed: bool)
    requires |policyMap| == |policies|
    ensures loaded.Some? <==> EachCompiles(schemas, policies, policyMap)
    ensures loaded.Some? ==> loaded.value == Compilations(policies, policyMap)
    ensures crashed <==> exists i :: 0 <= i < |policies| && Compiler.Panics(schemas, policies[i], policyMap[i]) &&
                                     EachCompiles(schemas, policies[..i], policyMap[..i])
  {
    var compilations: seq<Compilation> := [];
    var i := 0;
    while i < |policies|
      invariant 0 <= i <= |policies| && compilations == Compilations(policies[..i], policyMap[..i])
      invariant EachCompiles(schemas, policies[..i], policyMap[..i])
    {
      var outcome := Compiler.Compile(schemas, policies[i], policyMap[i]);
      if !outcome.Compiled? {
        assert !CompilesAlone(schemas, policies[i], policyMap[i]);
        return None, outcome.Panicked?;
      }
      compilations := compilations + [Compilation(policies[i], policyMap[i], outcome.policy)];
      i := i + 1;
    }
    assert policies[..i] == policies && policyMap[..i] == policyMap;
    loaded, crashed := Some(compilations), false;
  }

  // ------------------------------------------------------- policy by policy

  /** `exs` are the delivered exceptions, each at least once, in any order. */
  ghost predicate ListsDelivered(exs: seq<PolicyException>, d: map<Name, PolicyException>) {
    forall ex :: ex in exs <==> exists k :: k in d && d[k] == ex
  }

  /** Every event of the run kept the agreement, and `exs` is what was delivered. */
  ghost predicate Agreeing(es: seq<Event>, exs: seq<PolicyException>) {
    EveryEventKeepsAgreement(es) && CacheKey.NamesMatch(es) && ListsDelivered(exs, Delivered(es))
  }

  /** When every event of a run kept the agreement, the live source hands the compiler,
      for each present policy, the very exceptions the static source matches to it. */
  lemma SameExceptions(es: seq<Event>, p: Name, exs: seq<PolicyException>, c: Compilation)
    requires Agreeing(es, exs)
    requires p in Run(es).policies && Compiles(c, CacheKey.InputOf(Run(es).policies[p]))
    ensures forall ex :: ex in c.exceptions <==> ex in Matched(c.policy, exs)
  {
    var pv, d := Run(es).policies[p], Delivered(es);
    StoreRefinesBatch(es);
    assert es[..|es|] == es;
    assert Agrees(Run(es[..|es|]), Delivered(es[..|es|]));
    assert pv.exceptions == Naming(d, p);
    RunOwnNames(es);
    var input := CacheKey.InputOf(pv);
    var keys :| CompilesInOrder(keys, c, input);
    Store.EnumeratesMembers(c.exceptions, keys, input.exceptions);
    MatchedMembers(c.policy, exs);
    forall ex ensures ex in c.exceptions <==> ex in exs && Matches(c.policy, ex) {
      if ex in exs && Matches(c.policy, ex) {
        var k :| k in d && d[k] == ex;
        assert k in input.exceptions && input.exceptions[k] == ex;
      }
      if ex in c.exceptions {
        var k :| k in input.exceptions && input.exceptions[k] == ex;
        assert k in d && d[k] == ex;
      }
    }
  }

  /** The map of exceptions can be walked in some order, ... */
  lemma SomeOrder(m: map<Name, PolicyException>) returns (s: seq<PolicyException>, keys: seq<Name>)
    ensures Store.Enumerates(s, keys, m)
    decreases m.Keys
  {
    if m == map[] {
      s, keys := [], [];
    } else {
      var k :| k in m;
      s, keys := SomeOrder(m - {k});
      Store.EnumeratesStep(s, keys, m - {k}, k, m[k]);
      assert (m - {k})[k := m[k]] == m;
      s, keys := s + [m[k]], keys + [k];
    }
  }

  lemma {:induction false} OneMoreFirst(s: seq<PolicyException>, keys: seq<Name>, m: map<Name, PolicyException>,
                                        k: Name, e: PolicyException)
    requires Store.Enumerates(s, keys, m) && k !in m
    ensures Store.Enumerates([e] + s, [k] + keys, m[k := e])
  {
    if keys == [] {
      Store.EnumeratesStep([], [], m, k, e);
      assert [] + [e] == [e] + s && [] + [k] == [k] + keys;
    } else {
      var n := keys[|keys| - 1];
      OneMoreFirst(s[..|s| - 1], keys[..|keys| - 1], m - {n}, k, e);
      assert ([e] + s)[..|s|] == [e] + s[..|s| - 1] && ([k] + keys)[..|keys|] == [k] + keys[..|keys| - 1];
      assert m[k := e] - {n} == (m - {n})[k := e];
    }
  }

  /** ... and then also with any of them first. */
  lemma {:induction false} AnyFirst(s: seq<PolicyException>, keys: seq<Name>, m: map<Name, PolicyException>, i: nat)
    requires Store.Enumerates(s, keys, m) && i < |s| == |keys|
    ensures Store.Enumerates(Ordering.ToFront(s, i), Ordering.ToFront(keys, i), m)
  {
    var n, e, init, rest := keys[|keys| - 1], s[|s| - 1], s[..|s| - 1], keys[..|keys| - 1];
    assert s == init + [e] && keys == rest + [n] && (m - {n})[n := e] == m;
    if i == |init| {
      OneMoreFirst(init, rest, m - {n}, n, e);
      assert Ordering.ToFront(s, i) == [e] + init && Ordering.ToFront(keys, i) == [n] + rest;
    } else {
      AnyFirst(init, rest, m - {n}, i);
      Ordering.ToFrontAppend(init, i, e);
      Ordering.ToFrontAppend(rest, i, n);
      Store.EnumeratesStep(Ordering.ToFront(init, i), Ordering.ToFront(rest, i), m - {n}, n, e);
    }
  }

  /** The live source can hand the compiler the exceptions in some order, ... */
  lemma SomeCompilation(pv: PolicyView) returns (c: Compilation, keys: seq<Name>)
    ensures c.policy == pv.policy && CompilesInOrder(keys, c, CacheKey.InputOf(pv))
  {
    var s;
    s, keys := SomeOrder(CacheKey.InputOf(pv).exceptions);
    c := CompilationOf(pv.policy, s);
  }

  /** ... and then with any of them first. */
  lemma CompilationWithFirst(pv: PolicyView, c: Compilation, keys: seq<Name>, i: nat)
    requires CompilesInOrder(keys, c, CacheKey.InputOf(pv)) && i < |c.exceptions|
    ensures Compiles(CompilationOf(pv.policy, Ordering.ToFront(c.exceptions, i)), CacheKey.InputOf(pv))
  {
    var input := CacheKey.InputOf(pv);
    Store.EnumeratesMembers(c.exceptions, keys, input.exceptions);
    AnyFirst(c.exceptions, keys, input.exceptions, i);
    assert CompilesInOrder(Ordering.ToFront(keys, i), CompilationOf(pv.policy, Ordering.ToFront(c.exceptions, i)), input);
  }

  /** The two sources then compile alike: a present policy compiles from the live source,
      or panics there, exactly when it does so from the static one. */
  lemma SourcesCompileAlike(schemas: Compiler.Schemas, es: seq<Event>, p: Name, exs: seq<PolicyException>)
    requires Agreeing(es, exs) && p in Run(es).policies
    ensures var pv := Run(es).policies[p];
      && (Compilable(schemas, CacheKey.InputOf(pv)) <==> CompilesAlone(schemas, pv.policy, Matched(pv.policy, exs)))
      && (Crashing(schemas, CacheKey.InputOf(pv)) <==> Compiler.Panics(schemas, pv.policy, Matched(pv.policy, exs)))
  {
    var pv := Run(es).policies[p];
    var c, keys := SomeCompilation(pv);
    SameExceptions(es, p, exs, c);
    CompilableInAnyOrder(schemas, CacheKey.InputOf(pv), c.exceptions, keys);
    if CompilesAlone(schemas, pv.policy, c.exceptions) {
      MembersCompile(schemas, pv.policy, c.exceptions, Matched(pv.policy, exs));
    }
    if CompilesAlone(schemas, pv.policy, Matched(pv.policy, exs)) {
      MembersCompile(schemas, pv.policy, Matched(pv.policy, exs), c.exceptions);
    }
  }

  lemma MembersCompile(schemas: Compiler.Schemas, p: ValidatingPolicy, exs: seq<PolicyException>,
                       exs': seq<PolicyException>)
    requires CompilesAlone(schemas, p, exs) && forall ex :: ex in exs' ==> ex in exs
    ensures CompilesAlone(schemas, p, exs')
  {
    forall i | 0 <= i < |exs'| ensures Compiler.ExceptionCompiles(FinalChecker(schemas, p), exs'[i]) {
      assert exs'[i] in exs;
    }
  }

  /** Every compilation of the policy's live state means what its static one means. */
  ghost predicate MeansAlike(pv: PolicyView, exs: seq<PolicyException>, kind: Mode, req: Cel.Request) {
    forall c :: Compiles(c, CacheKey.InputOf(pv)) ==>
      Meaning(c.policy, c.exceptions, kind, req) == Meaning(pv.policy, Matched(pv.policy, exs), kind, req)
  }

  lemma MembersRun(p: ValidatingPolicy, order: seq<Declaration>, exs: seq<PolicyException>, exs': seq<PolicyException>)
    requires RunsOver(Compiler.Assembled(p, exs), order) && forall ex :: ex in exs' ==> ex in exs
    ensures RunsOver(Compiler.Assembled(p, exs'), order)
  {
    var c, c' := Compiler.Assembled(p, exs), Compiler.Assembled(p, exs');
    forall k, i | 0 <= k < |c'.exceptions| && 0 <= i < |c'.exceptions[k]|
      ensures Cel.Reads(c'.exceptions[k][i]) <= Compiler.NamesOf(order)
    {
      assert exs'[k] in exs;
      var j :| 0 <= j < |exs| && exs[j] == exs'[k];
      assert c.exceptions[j][i] == c'.exceptions[k][i];
    }
  }

  /** With exception `i` first, a policy means what it means over `order`. */
  lemma MeansWithFirst(p: ValidatingPolicy, order: seq<Declaration>, exs: seq<PolicyException>, i: nat, kind: Mode,
                       req: Cel.Request)
    requires RunsOver(Compiler.Assembled(p, exs), order) && i < |exs|
    ensures Meaning(p, Ordering.ToFront(exs, i), kind, req) == MeaningOver(p, order, Ordering.ToFront(exs, i), kind, req)
  {
    Ordering.ToFrontPermutes(exs, i);
    Ordering.PermutationMembers(exs, Ordering.ToFront(exs, i));
    MembersRun(p, order, exs, Ordering.ToFront(exs, i));
    MeaningIsOver(p, order, Ordering.ToFront(exs, i), kind, req);
  }

  /** If the order shows, two orders that the live source can take mean different things. */
  lemma OrderShowsInLive(pv: PolicyView, order: seq<Declaration>, c: Compilation, keys: seq<Name>, kind: Mode,
                         req: Cel.Request) returns (a: Compilation, b: Compilation)
    requires CompilesInOrder(keys, c, CacheKey.InputOf(pv)) && RunsOver(c.compiled, order)
    requires OrderShows(c.policy, order, c.exceptions, req)
    ensures Compiles(a, CacheKey.InputOf(pv)) && Compiles(b, CacheKey.InputOf(pv))
    ensures Meaning(a.policy, a.exceptions, kind, req) != Meaning(b.policy, b.exceptions, kind, req)
  {
    var p, s := pv.policy, c.exceptions;
    var i, j := ContestedBy(s, req, EnvOf(order, req));
    a, b := CompilationOf(p, Ordering.ToFront(s, i)), CompilationOf(p, Ordering.ToFront(s, j));
    CompilationWithFirst(pv, c, keys, i);
    CompilationWithFirst(pv, c, keys, j);
    FirstExceptionDecides(p, order, s, i, kind, req);
    FirstExceptionDecides(p, order, s, j, kind, req);
    MeansWithFirst(p, order, s, i, kind, req);
    MeansWithFirst(p, order, s, j, kind, req);
  }

  lemma MembersShow(p: ValidatingPolicy, order: seq<Declaration>, exs: seq<PolicyException>,
                    exs': seq<PolicyException>, req: Cel.Request)
    requires OrderShows(p, order, exs, req) && forall ex :: ex in exs ==> ex in exs'
    ensures OrderShows(p, order, exs', req)
  {
    ValsOfSame(exs, exs', req, EnvOf(order, req));
  }

  /** A policy that runs means the same from one list of exceptions as from another with
      the same members, unless their order shows. */
  lemma MeansByMembers(p: ValidatingPolicy, order: seq<Declaration>, exs: seq<PolicyException>,
                       exs': seq<PolicyException>, kind: Mode, req: Cel.Request)
    requires RunsOver(Compiler.Assembled(p, exs), order) && !OrderShows(p, order, exs, req)
    requires forall ex :: ex in exs <==> ex in exs'
    ensures Meaning(p, exs', kind, req) == Meaning(p, exs, kind, req)
  {
    MembersRun(p, order, exs, exs');
    MeaningIsOver(p, order, exs, kind, req);
    MeaningIsOver(p, order, exs', kind, req);
    MeaningOfMembers(p, order, exs, exs', kind, req);
  }

  /** After a run whose events kept the agreement, a present policy that runs over some
      order of its variables means the same from both sources on a request, in whatever
      order the live one walks its exceptions, exactly when the order of the exceptions
      does not show on that request. */
  lemma PolicyMeansAlikeExactly(es: seq<Event>, p: Name, exs: seq<PolicyException>, order: seq<Declaration>,
                                kind: Mode, req: Cel.Request)
    requires Agreeing(es, exs) && p in Run(es).policies
    requires var policy := Run(es).policies[p].policy;
             RunsOver(Compiler.Assembled(policy, Matched(policy, exs)), order)
    ensures var pv := Run(es).policies[p];
      MeansAlike(pv, exs, kind, req) <==> !OrderShows(pv.policy, order, Matched(pv.policy, exs), req)
  {
    var pv := Run(es).policies[p];
    var matched := Matched(pv.policy, exs);
    if OrderShows(pv.policy, order, matched, req) {
      var c, keys := SomeCompilation(pv);
      SameExceptions(es, p, exs, c);
      MembersRun(pv.policy, order, matched, c.exceptions);
      MembersShow(pv.policy, order, matched, c.exceptions, req);
      var a, b := OrderShowsInLive(pv, order, c, keys, kind, req);
    } else {
      forall c | Compiles(c, CacheKey.InputOf(pv))
        ensures Meaning(c.policy, c.exceptions, kind, req) == Meaning(pv.policy, matched, kind, req)
      {
        SameExceptions(es, p, exs, c);
        MeansByMembers(pv.policy, order, matched, c.exceptions, kind, req);
      }
    }
  }

  // ------------------------------------------------------------ whole sources

  /** What the static source hands out, its map walked in the order `files`; nothing at
      all if some policy does not compile. */
  ghost function StaticLoad(schemas: Compiler.Schemas, files: seq<ValidatingPolicy>, exs: seq<PolicyException>)
    : Option<seq<Compilation>>
  {
    if EachCompiles(schemas, files, MatchedAll(files, exs)) then Some(Compilations(files, MatchedAll(files, exs)))
    else None
  }

  function Installed(loaded: seq<Compilation>): (ps: seq<Frontends.Installed>)
    ensures |ps| == |loaded|
  {
    seq(|loaded|, i requires 0 <= i < |loaded| => Frontends.Installed(loaded[i].policy, loaded[i].exceptions))
  }

  ghost function CandidatesOf(loaded: seq<Compilation>, kind: Mode, req: Cel.Request): (cs: seq<Dispatch.Candidate>)
    ensures |cs| == |loaded|
    ensures forall i :: 0 <= i < |loaded| ==>
      cs[i].outcome == Meaning(loaded[i].policy, loaded[i].exceptions, kind, req)
  {
    Frontends.CandidatesOf(Installed(loaded), kind, req)
  }

  ghost function StaticCandidates(files: seq<ValidatingPolicy>, exs: seq<PolicyException>, kind: Mode, req: Cel.Request)
    : (cs: seq<Dispatch.Candidate>)
    ensures |cs| == |files|
    ensures forall i :: 0 <= i < |files| ==> cs[i].outcome == Meaning(files[i], Matched(files[i], exs), kind, req)
  {
    CandidatesOf(Compilations(files, MatchedAll(files, exs)), kind, req)
  }

  /** The answer to a request from the policies that a source handed out. */
  ghost function AnswerFrom(loaded: seq<Compilation>, kind: Mode, req: Cel.Request): Evaluation {
    Dispatch.FirstDecisive(CandidatesOf(loaded, kind, req))
  }

  /** `files` lists the policies that `v` holds, each at least once. */
  ghost predicate ListsPresent(files: seq<ValidatingPolicy>, v: StoreView) {
    forall p :: p in files <==> exists n :: n in v.policies && v.policies[n].policy == p
  }

  /** With the exceptions matched to it, the policy runs over this order of its variables,
      and does not show the order of these exceptions. */
  ghost predicate Settled(p: ValidatingPolicy, exs: seq<PolicyException>, order: seq<Declaration>, req: Cel.Request) {
    RunsOver(Compiler.Assembled(p, Matched(p, exs)), order) && !OrderShows(p, order, Matched(p, exs), req)
  }

  ghost predicate EachSettled(files: seq<ValidatingPolicy>, exs: seq<PolicyException>, req: Cel.Request) {
    forall p :: p in files ==> exists order :: Settled(p, exs, order, req)
  }

  /** The name under which a listed policy is present, and where it is answered. */
  lemma ListedAt(v: StoreView, n: Name) returns (i: nat)
    requires n in v.policies
    ensures i < |Ordering.Sorted(v.policies.Keys)| && Ordering.Sorted(v.policies.Keys)[i] == n
  {
    Ordering.SortedLists(v.policies.Keys);
    var names := Ordering.Sorted(v.policies.Keys);
    assert n in names;
    i :| 0 <= i < |names| && names[i] == n;
  }

  /** The live source leaves no present policy out exactly when the static one hands out
      anything. */
  lemma SourcesLoadAlike(schemas: Compiler.Schemas, es: seq<Event>, exs: seq<PolicyException>,
                         answers: seq<Option<Compilation>>, files: seq<ValidatingPolicy>)
    requires Agreeing(es, exs) && AllCurrent(schemas, Run(es), answers) && ListsPresent(files, Run(es))
    ensures StaticLoad(schemas, files, exs).Some? <==> forall i :: 0 <= i < |answers| ==> answers[i].Some?
  {
    var v := Run(es);
    var names := Ordering.Sorted(v.policies.Keys);
    forall i | 0 <= i < |answers|
      ensures names[i] in v.policies
      ensures var p := v.policies[names[i]].policy;
              p in files && (answers[i].Some? <==> CompilesAlone(schemas, p, Matched(p, exs)))
    {
      SourcesCompileAlike(schemas, es, names[i], exs);
    }
    forall k | 0 <= k < |files|
      ensures exists i :: 0 <= i < |answers| && v.policies[names[i]].policy == files[k]
    {
      assert files[k] in files;
      var n :| n in v.policies && v.policies[n].policy == files[k];
      var i := ListedAt(v, n);
    }
  }

  lemma {:induction false} PresentAll(answers: seq<Option<Compilation>>)
    requires forall i :: 0 <= i < |answers| ==> answers[i].Some?
    ensures |Present(answers)| == |answers|
    ensures forall i :: 0 <= i < |answers| ==> Present(answers)[i] == answers[i].value
  {
    if answers == [] {
    } else {
      PresentAll(answers[..|answers| - 1]);
    }
  }

  /** What a candidate from the files says. */
  ghost predicate FileSays(files: seq<ValidatingPolicy>, exs: seq<PolicyException>, kind: Mode, req: Cel.Request,
                           e: Evaluation) {
    exists p :: p in files && Meaning(p, Matched(p, exs), kind, req) == e
  }

  lemma StaticSays(files: seq<ValidatingPolicy>, exs: seq<PolicyException>, kind: Mode, req: Cel.Request, e: Evaluation)
    ensures Dispatch.Says(StaticCandidates(files, exs, kind, req), e) <==>
            FileSays(files, exs, kind, req, e)
  {
    var cs := StaticCandidates(files, exs, kind, req);
    if p :| p in files && Meaning(p, Matched(p, exs), kind, req) == e {
      var k :| 0 <= k < |files| && files[k] == p;
      assert cs[k].outcome == e;
    }
    if k :| 0 <= k < |cs| && cs[k].outcome == e {
      assert files[k] in files;
    }
  }

  /** A present policy that compiles is answered by what its static version means. */
  lemma LiveMeaning(schemas: Compiler.Schemas, es: seq<Event>, exs: seq<PolicyException>,
                    answers: seq<Option<Compilation>>, files: seq<ValidatingPolicy>, i: nat, kind: Mode, req: Cel.Request)
    requires Agreeing(es, exs) && AllCurrent(schemas, Run(es), answers) && ListsPresent(files, Run(es))
    requires EachSettled(files, exs, req) && i < |answers| && answers[i].Some?
    ensures var p := answers[i].value.policy;
      && p in files && Ordering.Sorted(Run(es).policies.Keys)[i] in Run(es).policies
      && p == Run(es).policies[Ordering.Sorted(Run(es).policies.Keys)[i]].policy
      && Meaning(p, answers[i].value.exceptions, kind, req) == Meaning(p, Matched(p, exs), kind, req)
  {
    var n := Ordering.Sorted(Run(es).policies.Keys)[i];
    var p := Run(es).policies[n].policy;
    assert IsCurrent(schemas, answers[i], CacheKey.InputOf(Run(es).policies[n]));
    assert p in files;
    var order :| Settled(p, exs, order, req);
    PolicyMeansAlikeExactly(es, n, exs, order, kind, req);
  }

  /** If the live source leaves no policy out, it says what the files say. */
  lemma LiveSays(schemas: Compiler.Schemas, es: seq<Event>, exs: seq<PolicyException>,
                 answers: seq<Option<Compilation>>, files: seq<ValidatingPolicy>,
                 kind: Mode, req: Cel.Request, e: Evaluation)
    requires Agreeing(es, exs) && AllCurrent(schemas, Run(es), answers) && ListsPresent(files, Run(es))
    requires EachSettled(files, exs, req) && forall i :: 0 <= i < |answers| ==> answers[i].Some?
    ensures Dispatch.Says(CandidatesOf(Present(answers), kind, req), e) <==> FileSays(files, exs, kind, req, e)
  {
    PresentAll(answers);
    if Dispatch.Says(CandidatesOf(Present(answers), kind, req), e) {
      var i :| 0 <= i < |answers| && CandidatesOf(Present(answers), kind, req)[i].outcome == e;
      LiveMeaning(schemas, es, exs, answers, files, i, kind, req);
    }
    if FileSays(files, exs, kind, req, e) {
      LiveSaysToo(schemas, es, exs, answers, files, kind, req, e);
    }
  }

  lemma LiveSaysToo(schemas: Compiler.Schemas, es: seq<Event>, exs: seq<PolicyException>,
                    answers: seq<Option<Compilation>>, files: seq<ValidatingPolicy>,
                    kind: Mode, req: Cel.Request, e: Evaluation)
    requires Agreeing(es, exs) && AllCurrent(schemas, Run(es), answers) && ListsPresent(files, Run(es))
    requires EachSettled(files, exs, req) && forall i :: 0 <= i < |answers| ==> answers[i].Some?
    requires FileSays(files, exs, kind, req, e)
    ensures Dispatch.Says(CandidatesOf(Present(answers), kind, req), e)
  {
    var p :| p in files && Meaning(p, Matched(p, exs), kind, req) == e;
    var n :| n in Run(es).policies && Run(es).policies[n].policy == p;
    var i := ListedAt(Run(es), n);
    PresentAll(answers);
    LiveMeaning(schemas, es, exs, answers, files, i, kind, req);
    assert CandidatesOf(Present(answers), kind, req)[i].outcome == e;
  }

  ghost predicate SayAlike(files: seq<ValidatingPolicy>, exs: seq<PolicyException>, live: seq<Dispatch.Candidate>,
                           kind: Mode, req: Cel.Request) {
    forall e :: Dispatch.Says(live, e) <==> FileSays(files, exs, kind, req, e)
  }

  ghost function FirstSaid(walk: seq<ValidatingPolicy>, exs: seq<PolicyException>, kind: Mode, req: Cel.Request): Evaluation {
    Dispatch.FirstDecisive(StaticCandidates(walk, exs, kind, req))
  }

  /** Every walk of the files gives the answer of policies that say what the files say,
      exactly when these are unanimous. */
  lemma WalksAnswerExactly(files: seq<ValidatingPolicy>, exs: seq<PolicyException>, live: seq<Dispatch.Candidate>,
                           kind: Mode, req: Cel.Request)
    requires SayAlike(files, exs, live, kind, req)
    ensures (forall walk :: multiset(walk) == multiset(files) ==>
               FirstSaid(walk, exs, kind, req) == Dispatch.FirstDecisive(live))
            <==> Dispatch.Unanimous(StaticCandidates(files, exs, kind, req))
  {
    if Dispatch.Unanimous(StaticCandidates(files, exs, kind, req)) {
      forall e ensures Dispatch.Says(StaticCandidates(files, exs, kind, req), e) <==> Dispatch.Says(live, e) {
        StaticSays(files, exs, kind, req, e);
      }
      Dispatch.UnanimousAnswer(StaticCandidates(files, exs, kind, req), live);
      forall walk | multiset(walk) == multiset(files)
        ensures FirstSaid(walk, exs, kind, req) == Dispatch.FirstDecisive(live)
      {
        WalkSays(files, exs, walk, kind, req);
        Dispatch.UnanimousAnswer(StaticCandidates(files, exs, kind, req), StaticCandidates(walk, exs, kind, req));
      }
    } else {
      var a, b := ContradictingWalks(files, exs, kind, req);
    }
  }

  /** With its map walked so, the static source hands out its policies, and their answer
      is `e`. */
  ghost predicate WalkAnswers(schemas: Compiler.Schemas, walk: seq<ValidatingPolicy>, exs: seq<PolicyException>,
                              kind: Mode, req: Cel.Request, e: Evaluation) {
    StaticLoad(schemas, walk, exs).Some? && AnswerFrom(StaticLoad(schemas, walk, exs).value, kind, req) == e
  }

  ghost predicate EveryWalkAnswers(schemas: Compiler.Schemas, files: seq<ValidatingPolicy>, exs: seq<PolicyException>,
                                   kind: Mode, req: Cel.Request, e: Evaluation) {
    forall walk :: multiset(walk) == multiset(files) ==> WalkAnswers(schemas, walk, exs, kind, req, e)
  }

  lemma EveryWalkAnswersExactly(schemas: Compiler.Schemas, files: seq<ValidatingPolicy>, exs: seq<PolicyException>,
                                live: seq<Dispatch.Candidate>, kind: Mode, req: Cel.Request)
    requires StaticLoad(schemas, files, exs).Some? && SayAlike(files, exs, live, kind, req)
    ensures EveryWalkAnswers(schemas, files, exs, kind, req, Dispatch.FirstDecisive(live)) <==>
            Dispatch.Unanimous(StaticCandidates(files, exs, kind, req))
  {
    var e := Dispatch.FirstDecisive(live);
    WalksAnswerExactly(files, exs, live, kind, req);
    forall walk | multiset(walk) == multiset(files)
      ensures WalkAnswers(schemas, walk, exs, kind, req, e) <==> FirstSaid(walk, exs, kind, req) == e
    {
      WalkAnswersExactly(schemas, files, exs, walk, kind, req, e);
    }
  }

  /** After a run whose events kept the agreement, with files that compile, run and do not
      show the order of their exceptions on a request: the static source, in whatever
      order its map is walked, hands out its policies and gives the answer of the live
      source, exactly when all policies that say something say the same. */
  lemma SourcesAnswerAlikeExactly(schemas: Compiler.Schemas, es: seq<Event>, exs: seq<PolicyException>,
                                  answers: seq<Option<Compilation>>, files: seq<ValidatingPolicy>,
                                  kind: Mode, req: Cel.Request)
    requires Agreeing(es, exs) && AllCurrent(schemas, Run(es), answers) && ListsPresent(files, Run(es))
    requires EachSettled(files, exs, req) && StaticLoad(schemas, files, exs).Some?
    ensures EveryWalkAnswers(schemas, files, exs, kind, req, AnswerFrom(Present(answers), kind, req)) <==>
            Dispatch.Unanimous(StaticCandidates(files, exs, kind, req))
  {
    SourcesLoadAlike(schemas, es, exs, answers, files);
    AllSayAlike(schemas, es, exs, answers, files, kind, req);
    EveryWalkAnswersExactly(schemas, files, exs, CandidatesOf(Present(answers), kind, req), kind, req);
  }

  lemma AllSayAlike(schemas: Compiler.Schemas, es: seq<Event>, exs: seq<PolicyException>,
                    answers: seq<Option<Compilation>>, files: seq<ValidatingPolicy>, kind: Mode, req: Cel.Request)
    requires Agreeing(es, exs) && AllCurrent(schemas, Run(es), answers) && ListsPresent(files, Run(es))
    requires EachSettled(files, exs, req) && forall i :: 0 <= i < |answers| ==> answers[i].Some?
    ensures SayAlike(files, exs, CandidatesOf(Present(answers), kind, req), kind, req)
  {
    forall e ensures Dispatch.Says(CandidatesOf(Present(answers), kind, req), e) <==> FileSays(files, exs, kind, req, e) {
      LiveSays(schemas, es, exs, answers, files, kind, req, e);
    }
  }

  lemma WalkAnswersExactly(schemas: Compiler.Schemas, files: seq<ValidatingPolicy>, exs: seq<PolicyException>,
                           walk: seq<ValidatingPolicy>, kind: Mode, req: Cel.Request, e: Evaluation)
    requires StaticLoad(schemas, files, exs).Some? && multiset(walk) == multiset(files)
    ensures WalkAnswers(schemas, walk, exs, kind, req, e) <==> FirstSaid(walk, exs, kind, req) == e
  {
    WalkLoads(schemas, files, exs, walk);
  }

  lemma WalkLoads(schemas: Compiler.Schemas, files: seq<ValidatingPolicy>, exs: seq<PolicyException>,
                  walk: seq<ValidatingPolicy>)
    requires StaticLoad(schemas, files, exs).Some? && multiset(walk) == multiset(files)
    ensures StaticLoad(schemas, walk, exs).Some?
  {
    Ordering.PermutationMembers(walk, files);
    forall i | 0 <= i < |walk| ensures CompilesAlone(schemas, walk[i], Matched(walk[i], exs)) {
      assert walk[i] in files;
      var k :| 0 <= k < |files| && files[k] == walk[i];
      assert CompilesAlone(schemas, files[k], MatchedAll(files, exs)[k]);
    }
  }

  lemma WalkSays(files: seq<ValidatingPolicy>, exs: seq<PolicyException>, walk: seq<ValidatingPolicy>,
                 kind: Mode, req: Cel.Request)
    requires multiset(walk) == multiset(files)
    ensures forall e :: Dispatch.Says(StaticCandidates(walk, exs, kind, req), e) <==>
                        Dispatch.Says(StaticCandidates(files, exs, kind, req), e)
  {
    Ordering.PermutationMembers(walk, files);
    forall e ensures Dispatch.Says(StaticCandidates(walk, exs, kind, req), e) <==>
                     Dispatch.Says(StaticCandidates(files, exs, kind, req), e) {
      StaticSays(files, exs, kind, req, e);
      StaticSays(walk, exs, kind, req, e);
    }
  }

  /** Walked to first, a policy that says something is the answer. */
  lemma FirstWalked(files: seq<ValidatingPolicy>, exs: seq<PolicyException>, kind: Mode, req: Cel.Request, e: Evaluation)
    returns (walk: seq<ValidatingPolicy>)
    requires FileSays(files, exs, kind, req, e) && Dispatch.Decisive(e)
    ensures multiset(walk) == multiset(files)
    ensures FirstSaid(walk, exs, kind, req) == e
  {
    var p :| p in files && Meaning(p, Matched(p, exs), kind, req) == e;
    var k :| 0 <= k < |files| && files[k] == p;
    walk := Ordering.ToFront(files, k);
    Ordering.ToFrontPermutes(files, k);
    assert StaticCandidates(walk, exs, kind, req)[0].outcome == e;
  }

  lemma ContradictingWalks(files: seq<ValidatingPolicy>, exs: seq<PolicyException>, kind: Mode, req: Cel.Request)
    returns (a: seq<ValidatingPolicy>, b: seq<ValidatingPolicy>)
    requires !Dispatch.Unanimous(StaticCandidates(files, exs, kind, req))
    ensures multiset(a) == multiset(files) && multiset(b) == multiset(files)
    ensures FirstSaid(a, exs, kind, req) !=
            FirstSaid(b, exs, kind, req)
  {
    var cs := StaticCandidates(files, exs, kind, req);
    var d, e :| Dispatch.Says(cs, d) && Dispatch.Says(cs, e) && Dispatch.Decisive(d) && Dispatch.Decisive(e) && d != e;
    StaticSays(files, exs, kind, req, d);
    StaticSays(files, exs, kind, req, e);
    a := FirstWalked(files, exs, kind, req, d);
    b := FirstWalked(files, exs, kind, req, e);
  }

  // ---------------------------------------------------------------- witnesses

  /** A policy whose one rule always gives this response. */
  function Always(name: string, r: Response): ValidatingPolicy {
    ValidatingPolicy(Name(name), "1", r.mode, None, [], [], [Reply(r)])
  }

  lemma AlwaysAnswers(schemas: Compiler.Schemas, name: string, r: Response, req: Cel.Request)
    requires !r.mode.Unsupported?
    ensures CompilesAlone(schemas, Always(name, r), [])
    ensures Settled(Always(name, r), [], [], req)
    ensures Meaning(Always(name, r), [], r.mode, req) == Evaluation(Some(r), false)
  {
    var p := Always(name, r);
    RunsWithoutVariables(p, [], r.mode, req);
    assert Vals(p.validations, req, map[])[0] == Cel.Replied(r);
  }

  /** Two policies that contradict each other: the answer of the static source is that
      of the one its map is walked to first. */
  lemma PolicyOrderShows(schemas: Compiler.Schemas, ok: Response, denied: Response, req: Cel.Request)
    requires !ok.denied && denied.denied && ok.mode == denied.mode && !ok.mode.Unsupported?
    ensures var allow, deny := Always("a", ok), Always("b", denied);
      && WalkAnswers(schemas, [allow, deny], [], ok.mode, req, Evaluation(Some(ok), false))
      && WalkAnswers(schemas, [deny, allow], [], ok.mode, req, Evaluation(Some(denied), false))
  {
    AlwaysAnswers(schemas, "a", ok, req);
    AlwaysAnswers(schemas, "b", denied, req);
  }

  /** A policy of a mode that there is no compiler for, without any rule. */
  function Unknown(name: string): ValidatingPolicy {
    ValidatingPolicy(Name(name), "1", Unsupported("Kubernetes"), None, [], [], [])
  }

  lemma UnknownIsSilent(name: string, kind: Mode, req: Cel.Request)
    ensures Settled(Unknown(name), [], [], req) && Meaning(Unknown(name), [], kind, req) == NO_MATCH
  {
    RunsWithoutVariables(Unknown(name), [], kind, req);
  }

  lemma TwoCreated(a: ValidatingPolicy, b: ValidatingPolicy)
    requires a.name == Name("a") && b.name == Name("b")
    ensures var v := Run([PolicyEvent("a", a, false)] + [PolicyEvent("b", b, false)]);
      && v.policies == map[a.name := PolicyView(a, map[], 0), b.name := PolicyView(b, map[], 0)]
      && Ordering.Sorted(v.policies.Keys) == [a.name, b.name]
  {
    var none: seq<Event> := [];
    var e0, e1 := PolicyEvent("a", a, false), PolicyEvent("b", b, false);
    TwoPoliciesCreated(e0, e1, a.name, b.name);
    assert none + [e0] == [e0];
    Extend(none, e0);
    Extend([e0], e1);
    assert Ordering.Less(a.name, b.name);
    Ordering.SortedLists({a.name, b.name});
    Ordering.ListsUnique([a.name, b.name], Ordering.Sorted({a.name, b.name}), {a.name, b.name});
  }

  lemma TwoCreatedAgree(a: ValidatingPolicy, b: ValidatingPolicy)
    requires a.name == Name("a") && b.name == Name("b")
    ensures Agreeing([PolicyEvent("a", a, false)] + [PolicyEvent("b", b, false)], [])
  {
    var es := [PolicyEvent("a", a, false)] + [PolicyEvent("b", b, false)];
    TwoPoliciesCreated(es[0], es[1], a.name, b.name);
    assert es[..0] == [] && es[..1] == [es[0]];
  }

  lemma OneCompiles(schemas: Compiler.Schemas, v: StoreView, a: ValidatingPolicy, b: ValidatingPolicy)
    requires a.name == Name("a") && b.name == Name("b")
    requires v.policies == map[a.name := PolicyView(a, map[], 0), b.name := PolicyView(b, map[], 0)]
    requires Ordering.Sorted(v.policies.Keys) == [a.name, b.name]
    requires CompilesAlone(schemas, a, []) && !Compiler.Accepts(schemas, b)
    ensures AllCurrent(schemas, v, [Some(CompilationOf(a, [])), None]) && ListsPresent([a, b], v)
  {
    var none: seq<Name> := [];
    assert CacheKey.InputOf(v.policies[a.name]) == CacheKey.CompileInput(a, map[]);
    assert CompilesInOrder(none, CompilationOf(a, []), CacheKey.CompileInput(a, map[]));
    CompilableInAnyOrder(schemas, CacheKey.CompileInput(a, map[]), [], none);
    assert IsCurrent(schemas, Some(CompilationOf(a, [])), CacheKey.CompileInput(a, map[]));
    assert IsCurrent(schemas, None, CacheKey.InputOf(v.policies[b.name]));
  }

  lemma PresentOne(c: Compilation)
    ensures Present([Some(c), None]) == [c]
  {
    var none: seq<Option<Compilation>> := [];
    assert none + [Some(c)] == [Some(c)] && [Some(c)] + [None] == [Some(c), None];
    PresentAppended(none, Some(c));
    PresentAppended([Some(c)], None);
  }

  lemma OneSpeaks(a: ValidatingPolicy, b: ValidatingPolicy, kind: Mode, req: Cel.Request)
    requires Meaning(b, [], kind, req) == NO_MATCH
    ensures Dispatch.Unanimous(StaticCandidates([a, b], [], kind, req))
  {
    var cs := StaticCandidates([a, b], [], kind, req);
    assert cs[1].outcome == NO_MATCH;
    forall e | Dispatch.Says(cs, e) && Dispatch.Decisive(e) ensures e == cs[0].outcome {
    }
  }

  lemma BothSettled(a: ValidatingPolicy, b: ValidatingPolicy, req: Cel.Request)
    requires Settled(a, [], [], req) && Settled(b, [], [], req)
    ensures EachSettled([a, b], [], req)
  {
    forall p | p in [a, b] ensures exists order :: Settled(p, [], order, req) {
    }
  }

  lemma OneAnswers(a: ValidatingPolicy, kind: Mode, req: Cel.Request, e: Evaluation)
    requires Meaning(a, [], kind, req) == e && Dispatch.Decisive(e)
    ensures AnswerFrom(Present([Some(CompilationOf(a, [])), None]), kind, req) == e
  {
    PresentOne(CompilationOf(a, []));
  }

  lemma SettledAndUnanimous(schemas: Compiler.Schemas, a: ValidatingPolicy, b: ValidatingPolicy, denied: Response,
                            req: Cel.Request)
    requires denied.denied && denied.mode == HTTP && a == Always("a", denied) && b == Unknown("b")
    ensures EachSettled([a, b], [], req) && Dispatch.Unanimous(StaticCandidates([a, b], [], HTTP, req))
    ensures AnswerFrom(Present([Some(CompilationOf(a, [])), None]), HTTP, req) == Evaluation(Some(denied), false)
  {
    AlwaysAnswers(schemas, "a", denied, req);
    UnknownIsSilent("b", HTTP, req);
    BothSettled(a, b, req);
    OneSpeaks(a, b, HTTP, req);
    OneAnswers(a, HTTP, req, Evaluation(Some(denied), false));
  }

  lemma OneBadFile(schemas: Compiler.Schemas, a: ValidatingPolicy, b: ValidatingPolicy, v: StoreView)
    requires a.name == Name("a") && b.name == Name("b")
    requires v == Run([PolicyEvent("a", a, false)] + [PolicyEvent("b", b, false)])
    requires CompilesAlone(schemas, a, []) && !Compiler.Accepts(schemas, b)
    ensures Agreeing([PolicyEvent("a", a, false)] + [PolicyEvent("b", b, false)], [])
    ensures AllCurrent(schemas, v, [Some(CompilationOf(a, [])), None]) && ListsPresent([a, b], v)
    ensures StaticLoad(schemas, [a, b], []).None?
  {
    TwoCreated(a, b);
    TwoCreatedAgree(a, b);
    OneCompiles(schemas, v, a, b);
    assert !CompilesAlone(schemas, [a, b][1], MatchedAll([a, b], [])[1]);
  }

  /** One file that does not compile: the static source hands out nothing, while the live
      source leaves that policy out and answers with the other one. */
  lemma OneBadFileHidesAll(schemas: Compiler.Schemas, a: ValidatingPolicy, b: ValidatingPolicy, denied: Response,
                           req: Cel.Request)
    requires denied.denied && denied.mode == HTTP && a == Always("a", denied) && b == Unknown("b")
    ensures var v := Run([PolicyEvent("a", a, false)] + [PolicyEvent("b", b, false)]);
      AllCurrent(schemas, v, [Some(CompilationOf(a, [])), None]) && ListsPresent([a, b], v)
    ensures Agreeing([PolicyEvent("a", a, false)] + [PolicyEvent("b", b, false)], [])
    ensures EachSettled([a, b], [], req) && Dispatch.Unanimous(StaticCandidates([a, b], [], HTTP, req))
    ensures StaticLoad(schemas, [a, b], []).None?
    ensures AnswerFrom(Present([Some(CompilationOf(a, [])), None]), HTTP, req) == Evaluation(Some(denied), false)
  {
    SettledAndUnanimous(schemas, a, b, denied, req);
    OneBadFile(schemas, a, b, Run([PolicyEvent("a", a, false)] + [PolicyEvent("b", b, false)]));
  }
}
