/** Compilation of a policy and its exceptions: which scope each expression is checked
    in, what is rejected, and what the compiled policy runs. */
module Compiler {
  import opened Api
  import opened Cel

  /** `t` is the type under which `name` was registered last. */
  ghost predicate RegisteredLast(names: seq<Name>, types: seq<Type>, name: Name, t: Type)
    requires |names| == |types|
  {
    exists i :: 0 <= i < |names| && names[i] == name && types[i] == t && name !in names[i + 1..]
  }

  lemma RegisteredStep(names: seq<Name>, types: seq<Type>, m: Name, tm: Type, name: Name, t: Type)
    requires |names| == |types|
    requires m != name ==> RegisteredLast(names, types, m, tm)
    requires m == name ==> tm == t
    ensures RegisteredLast(names + [name], types + [t], m, tm)
  {
    var names', types' := names + [name], types + [t];
    if m == name {
      assert names'[|names|] == m && types'[|names|] == tm;
    } else {
      var i :| 0 <= i < |names| && names[i] == m && types[i] == tm && m !in names[i + 1..];
      assert names'[i + 1..] == names[i + 1..] + [name];
      assert names'[i] == m && types'[i] == tm;
    }
  }

  /** The scope table behind `variables`: a field exists once it was registered. */
  class VariablesProvider {
    var fields: map<Name, Type>
    var names: seq<Name>
    /** The registered types, in step with the names. */
    ghost var types: seq<Type>

    /** The table holds, for every name ever registered, its last type. */
    ghost predicate Valid()
      reads this
    {
      && |names| == |types|
      && (forall n :: n in fields <==> n in names)
      && (forall n :: n in fields ==> RegisteredLast(names, types, n, fields[n]))
    }

    constructor ()
      ensures Valid() && fields == map[] && names == []
    {
      fields, names, types := map[], [], [];
    }

    method RegisterField(name: Name, t: Type)
      requires Valid()
      modifies this
      ensures Valid() && fields == old(fields)[name := t]
      ensures names == old(names) + [name] && types == old(types) + [t]
    {
      fields := fields[name := t];
      names := names + [name];
      types := types + [t];
      forall m | m in fields ensures RegisteredLast(names, types, m, fields[m]) {
        RegisteredStep(old(names), old(types), m, fields[m], name, t);
      }
    }

    /** A name is found exactly when it was registered, with the type it got last. */
    function FindField(name: Name): (t: Option<Type>)
      requires Valid()
      reads this
      ensures t.Some? <==> name in names
      ensures t.Some? ==> RegisteredLast(names, types, name, t.value)
    {
      if name in fields then Some(fields[name]) else None
    }

    /** The type check of an expression against the fields registered so far. */
    method Check(e: Expr, mode: Mode, schema: map<string, Type>) returns (t: Option<Type>)
      requires Valid()
      ensures t == TypeOf(e, Checker(mode, schema, fields))
      decreases e
    {
      match e
      case BoolLit(_) => t := Some(BoolT);
      case NullLit => t := Some(NullT);
      case Reply(r) => t := if r.mode == mode then Some(ReplyT(r.mode)) else None;
      case ObjectField(f) => t := if f in schema then Some(schema[f]) else None;
      case Variable(n) => t := FindField(n);
      case Not(a) =>
        var ta := Check(a, mode, schema);
        t := if Boolean(ta) then Some(BoolT) else None;
      case And(a, b) =>
        var ta := Check(a, mode, schema);
        var tb := Check(b, mode, schema);
        t := if Boolean(ta) && Boolean(tb) then Some(BoolT) else None;
      case Or(a, b) =>
        var ta := Check(a, mode, schema);
        var tb := Check(b, mode, schema);
        t := if Boolean(ta) && Boolean(tb) then Some(BoolT) else None;
      case Cond(test, yes, no) =>
        var tt := Check(test, mode, schema);
        var ty := Check(yes, mode, schema);
        var tn := Check(no, mode, schema);
        t := if Boolean(tt) && ty.Some? && tn.Some? then Join(ty.value, tn.value) else None;
    }
  }

  datatype CompiledPolicy = CompiledPolicy(
    name: Name,
    failurePolicy: FailurePolicy,
    matchConditions: seq<Expr>,
    variables: map<Name, Expr>,
    rules: seq<Expr>,
    exceptions: seq<seq<Expr>>)

  datatype Part = Environment | MatchConditions | Variables | Validations

  /** `Panicked` is the nil dereference that follows a failed exception compilation,
      because the error of that compilation is not the one that is tested. */
  datatype Outcome =
    | Compiled(policy: CompiledPolicy)
    | Rejected(part: Part, index: nat)
    | Panicked

  type Schemas = Mode -> map<string, Type>

  function CheckerOf(schemas: Schemas, mode: Mode, scope: map<Name, Type>): Checker {
    Checker(mode, schemas(mode), scope)
  }

  predicate IsCondition(e: Expr, c: Checker) { TypeOf(e, c) == Some(BoolT) }

  predicate IsRule(e: Expr, c: Checker) {
    TypeOf(e, c) == Some(ReplyT(c.mode)) || TypeOf(e, c) == Some(NullT)
  }

  /** The fields of `variables` once all of `decls` are registered, each checked in
      the scope of those before it; None when one of them does not check. */
  function ScopeOf(schemas: Schemas, mode: Mode, decls: seq<Declaration>): Option<map<Name, Type>> {
    if decls == [] then Some(map[]) else
    var before := ScopeOf(schemas, mode, decls[..|decls| - 1]);
    var d := decls[|decls| - 1];
    if before.None? then None else
    var t := TypeOf(d.expression, CheckerOf(schemas, mode, before.value));
    if t.None? then None else Some(before.value[d.name := t.value])
  }

  function Programs(decls: seq<Declaration>): map<Name, Expr> {
    if decls == [] then map[] else
    Programs(decls[..|decls| - 1])[decls[|decls| - 1].name := decls[|decls| - 1].expression]
  }

  /** Everything about the policy itself is in order. */
  ghost predicate Accepts(schemas: Schemas, p: ValidatingPolicy) {
    && !p.mode.Unsupported?
    && (forall i :: 0 <= i < |p.matchConditions| ==> IsCondition(p.matchConditions[i], CheckerOf(schemas, p.mode, map[])))
    && ScopeOf(schemas, p.mode, p.variables).Some?
    && (forall i :: 0 <= i < |p.validations| ==>
          IsRule(p.validations[i], CheckerOf(schemas, p.mode, ScopeOf(schemas, p.mode, p.variables).value)))
  }

  ghost predicate ExceptionCompiles(c: Checker, ex: PolicyException) {
    forall i :: 0 <= i < |ex.matchConditions| ==> IsCondition(ex.matchConditions[i], c)
  }

  ghost predicate ExceptionsCompile(schemas: Schemas, p: ValidatingPolicy, exs: seq<PolicyException>)
    requires ScopeOf(schemas, p.mode, p.variables).Some?
  {
    var c := CheckerOf(schemas, p.mode, ScopeOf(schemas, p.mode, p.variables).value);
    forall i :: 0 <= i < |exs| ==> ExceptionCompiles(c, exs[i])
  }

  /** Nothing is wrong but an exception. */
  ghost predicate Panics(schemas: Schemas, p: ValidatingPolicy, exs: seq<PolicyException>) {
    Accepts(schemas, p) && !ExceptionsCompile(schemas, p, exs)
  }

  /** What was rejected is the first thing, in the order of compilation, that is wrong. */
  ghost predicate FirstFault(schemas: Schemas, p: ValidatingPolicy, part: Part, index: nat) {
    match part
    case Environment => p.mode.Unsupported?
    case MatchConditions =>
      && !p.mode.Unsupported? && index < |p.matchConditions|
      && !IsCondition(p.matchConditions[index], CheckerOf(schemas, p.mode, map[]))
      && forall i :: 0 <= i < index ==> IsCondition(p.matchConditions[i], CheckerOf(schemas, p.mode, map[]))
    case Variables =>
      && !p.mode.Unsupported? && index < |p.variables|
      && ScopeOf(schemas, p.mode, p.variables[..index]).Some?
      && ScopeOf(schemas, p.mode, p.variables[..index + 1]).None?
      && forall i :: 0 <= i < |p.matchConditions| ==> IsCondition(p.matchConditions[i], CheckerOf(schemas, p.mode, map[]))
    case Validations =>
      && !p.mode.Unsupported? && index < |p.validations|
      && ScopeOf(schemas, p.mode, p.variables).Some?
      && (var c := CheckerOf(schemas, p.mode, ScopeOf(schemas, p.mode, p.variables).value);
          && !IsRule(p.validations[index], c)
          && forall i :: 0 <= i < index ==> IsRule(p.validations[i], c))
      && forall i :: 0 <= i < |p.matchConditions| ==> IsCondition(p.matchConditions[i], CheckerOf(schemas, p.mode, map[]))
  }

  function Conditions(exs: seq<PolicyException>): seq<seq<Expr>> {
    seq(|exs|, i requires 0 <= i < |exs| => exs[i].matchConditions)
  }

  function Assembled(p: ValidatingPolicy, exs: seq<PolicyException>): CompiledPolicy {
    CompiledPolicy(p.name, if p.failurePolicy.None? then Fail else p.failurePolicy.value,
                   p.matchConditions, Programs(p.variables), p.validations, Conditions(exs))
  }

  /** No later declaration has this one's name. */
  ghost predicate LastOfName(decls: seq<Declaration>, i: nat) {
    i < |decls| && forall j :: i < j < |decls| ==> decls[j].name != decls[i].name
  }

  /** What a compiled policy holds, part by part: everything in the order it was written
      in, under each variable name the program declared last, and Fail unless the failure
      policy is set. */
  ghost predicate Carries(c: CompiledPolicy, p: ValidatingPolicy, exs: seq<PolicyException>) {
    && c.name == p.name && c.matchConditions == p.matchConditions && c.rules == p.validations
    && (c.failurePolicy == Ignore <==> p.failurePolicy == Some(Ignore))
    && |c.exceptions| == |exs| && (forall k :: 0 <= k < |exs| ==> c.exceptions[k] == exs[k].matchConditions)
    && (forall i: nat :: LastOfName(p.variables, i) ==>
          p.variables[i].name in c.variables && c.variables[p.variables[i].name] == p.variables[i].expression)
    && c.variables.Keys == NamesOf(p.variables)
  }

  lemma {:induction false} LastDeclarationStays(decls: seq<Declaration>, i: nat)
    requires LastOfName(decls, i)
    ensures decls[i].name in Programs(decls) && Programs(decls)[decls[i].name] == decls[i].expression
  {
    if i < |decls| - 1 {
      LastDeclarationStays(decls[..|decls| - 1], i);
    }
  }

  lemma AssembledCarries(p: ValidatingPolicy, exs: seq<PolicyException>)
    ensures Carries(Assembled(p, exs), p, exs)
  {
    ProgramsNames(p.variables);
    forall i: nat | LastOfName(p.variables, i)
      ensures p.variables[i].name in Programs(p.variables)
      ensures Programs(p.variables)[p.variables[i].name] == p.variables[i].expression
    {
      LastDeclarationStays(p.variables, i);
    }
  }

  lemma {:induction false} ScopePrefix(schemas: Schemas, mode: Mode, decls: seq<Declaration>, n: nat)
    requires n <= |decls| && ScopeOf(schemas, mode, decls).Some?
    ensures ScopeOf(schemas, mode, decls[..n]).Some?
  {
    if n == |decls| {
      assert decls[..n] == decls;
    } else {
      assert decls[..|decls| - 1][..n] == decls[..n];
      ScopePrefix(schemas, mode, decls[..|decls| - 1], n);
    }
  }

  /** A policy compiles exactly when it and its exceptions check; an exception that
      does not check is never reported, it crashes the compilation. */
  method Compile(schemas: Schemas, p: ValidatingPolicy, exs: seq<PolicyException>) returns (r: Outcome)
    ensures r.Compiled? <==> Accepts(schemas, p) && ExceptionsCompile(schemas, p, exs)
    ensures r.Panicked? <==> Panics(schemas, p, exs)
    ensures r.Compiled? ==> r.policy == Assembled(p, exs) && Carries(r.policy, p, exs)
    ensures r.Rejected? ==> FirstFault(schemas, p, r.part, r.index)
  {
    if p.mode.Unsupported? {
      return Rejected(Environment, 0);
    }
    var provider := new VariablesProvider();
    var matchConditions, badCondition := CompileMatchConditions(schemas, p.mode, p.matchConditions, provider);
    if badCondition.Some? {
      return Rejected(MatchConditions, badCondition.value);
    }
    var variables, badVariable := CompileVariables(schemas, p.mode, p.variables, provider);
    if badVariable.Some? {
      ghost var n := badVariable.value + 1;
      if ScopeOf(schemas, p.mode, p.variables).Some? { ScopePrefix(schemas, p.mode, p.variables, n); }
      return Rejected(Variables, badVariable.value);
    }
    var rules, badRule := CompileRules(schemas, p.mode, p.validations, provider);
    if badRule.Some? {
      return Rejected(Validations, badRule.value);
    }
    ghost var c := CheckerOf(schemas, p.mode, provider.fields);
    var exceptions: seq<seq<Expr>> := [];
    var i := 0;
    while i < |exs|
      invariant 0 <= i <= |exs|
      invariant exceptions == Conditions(exs[..i])
      invariant provider.Valid() && c == CheckerOf(schemas, p.mode, provider.fields)
      invariant forall j :: 0 <= j < i ==> ExceptionCompiles(c, exs[j])
    {
      var compiled := CompileException(schemas, p.mode, provider, exs[i]);
      if compiled.None? {
        return Panicked;
      }
      assert exs[..i + 1] == exs[..i] + [exs[i]];
      exceptions := exceptions + [compiled.value];
      i := i + 1;
    }
    assert exs[..i] == exs;
    AssembledCarries(p, exs);
    r := Compiled(CompiledPolicy(p.name, if p.failurePolicy.None? then Fail else p.failurePolicy.value,
                                 matchConditions, variables, rules, exceptions));
  }

  /** `bad` is the index of the first expression that is not a condition. */
  method CompileMatchConditions(schemas: Schemas, mode: Mode, es: seq<Expr>, provider: VariablesProvider)
    returns (compiled: seq<Expr>, bad: Option<nat>)
    requires provider.Valid()
    ensures var c := CheckerOf(schemas, mode, provider.fields);
      && (bad.None? ==> compiled == es && forall i :: 0 <= i < |es| ==> IsCondition(es[i], c))
      && (bad.Some? ==>
            && bad.value < |es| && !IsCondition(es[bad.value], c)
            && forall i :: 0 <= i < bad.value ==> IsCondition(es[i], c))
  {
    compiled := [];
    var i := 0;
    while i < |es|
      invariant 0 <= i <= |es| && compiled == es[..i]
      invariant forall j :: 0 <= j < i ==> IsCondition(es[j], CheckerOf(schemas, mode, provider.fields))
    {
      var t := provider.Check(es[i], mode, schemas(mode));
      if t != Some(BoolT) {
        return compiled, Some(i);
      }
      compiled := compiled + [es[i]];
      i := i + 1;
    }
    bad := None;
  }

  /** `bad` is the index of the first expression that is not a rule of this mode. */
  method CompileRules(schemas: Schemas, mode: Mode, es: seq<Expr>, provider: VariablesProvider)
    returns (compiled: seq<Expr>, bad: Option<nat>)
    requires provider.Valid()
    ensures var c := CheckerOf(schemas, mode, provider.fields);
      && (bad.None? ==> compiled == es && forall i :: 0 <= i < |es| ==> IsRule(es[i], c))
      && (bad.Some? ==>
            && bad.value < |es| && !IsRule(es[bad.value], c)
            && forall i :: 0 <= i < bad.value ==> IsRule(es[i], c))
  {
    compiled := [];
    var i := 0;
    while i < |es|
      invariant 0 <= i <= |es| && compiled == es[..i]
      invariant forall j :: 0 <= j < i ==> IsRule(es[j], CheckerOf(schemas, mode, provider.fields))
    {
      var t := provider.Check(es[i], mode, schemas(mode));
      if t != Some(ReplyT(mode)) && t != Some(NullT) {
        return compiled, Some(i);
      }
      compiled := compiled + [es[i]];
      i := i + 1;
    }
    bad := None;
  }

  /** Each variable is checked in the scope of those registered before it, then
      registered; `bad` is the index of the first one that does not check. */
  method CompileVariables(schemas: Schemas, mode: Mode, decls: seq<Declaration>, provider: VariablesProvider)
    returns (variables: map<Name, Expr>, bad: Option<nat>)
    requires provider.Valid() && provider.fields == map[]
    modifies provider
    ensures provider.Valid()
    ensures bad.None? <==> ScopeOf(schemas, mode, decls).Some?
    ensures bad.None? ==> provider.fields == ScopeOf(schemas, mode, decls).value && variables == Programs(decls)
    ensures bad.Some? ==> bad.value < |decls| && ScopeOf(schemas, mode, decls[..bad.value]).Some? &&
                          ScopeOf(schemas, mode, decls[..bad.value + 1]).None?
  {
    variables := map[];
    var i := 0;
    while i < |decls|
      invariant 0 <= i <= |decls|
      invariant provider.Valid() && ScopeOf(schemas, mode, decls[..i]) == Some(provider.fields)
      invariant variables == Programs(decls[..i])
    {
      assert decls[..i + 1][..i] == decls[..i];
      var t := provider.Check(decls[i].expression, mode, schemas(mode));
      if t.None? {
        if ScopeOf(schemas, mode, decls).Some? { ScopePrefix(schemas, mode, decls, i + 1); }
        return variables, Some(i);
      }
      provider.RegisterField(decls[i].name, t.value);
      variables := variables[decls[i].name := decls[i].expression];
      i := i + 1;
    }
    assert decls[..i] == decls;
    bad := None;
  }

  /** An exception compiles exactly when all its conditions are boolean. */
  method CompileException(schemas: Schemas, mode: Mode, provider: VariablesProvider, ex: PolicyException)
    returns (r: Option<seq<Expr>>)
    requires provider.Valid()
    ensures r.Some? <==> ExceptionCompiles(CheckerOf(schemas, mode, provider.fields), ex)
    ensures r.Some? ==> r.value == ex.matchConditions
  {
    ghost var c := CheckerOf(schemas, mode, provider.fields);
    var compiled: seq<Expr> := [];
    var i := 0;
    while i < |ex.matchConditions|
      invariant 0 <= i <= |ex.matchConditions|
      invariant compiled == ex.matchConditions[..i]
      invariant forall j :: 0 <= j < i ==> IsCondition(ex.matchConditions[j], c)
    {
      var t := provider.Check(ex.matchConditions[i], mode, schemas(mode));
      if t != Some(BoolT) {
        return None;
      }
      compiled := compiled + [ex.matchConditions[i]];
      i := i + 1;
    }
    r := Some(compiled);
  }

  /** A policy in order, with one exception whose condition is not boolean: the policy
      compiles without the exception and panics with it. */
  lemma BadExceptionPanics(schemas: Schemas)
    ensures var p := ValidatingPolicy(Name("p"), "1", HTTP, None, [], [], [NullLit]);
      var bad := PolicyException([p.name], HTTP, [NullLit]);
      Accepts(schemas, p) && ExceptionsCompile(schemas, p, []) && Panics(schemas, p, [bad])
  {
    var p := ValidatingPolicy(Name("p"), "1", HTTP, None, [], [], [NullLit]);
    var bad := PolicyException([p.name], HTTP, [NullLit]);
    var c := CheckerOf(schemas, HTTP, map[]);
    assert !IsCondition(bad.matchConditions[0], c);
    assert !ExceptionCompiles(c, [bad][0]);
  }

  /** A declared variable can be used where its type fits: as a rule when it is a response
      of the policy's mode or null, and as a condition of an exception when it is boolean. */
  lemma VariableIsInScope(schemas: Schemas, name: Name, mode: Mode, x: Name, e: Expr)
    requires !mode.Unsupported? && TypeOf(e, CheckerOf(schemas, mode, map[])).Some?
    ensures var t := TypeOf(e, CheckerOf(schemas, mode, map[])).value;
      var p := ValidatingPolicy(name, "1", mode, None, [], [Declaration(x, e)], []);
      var uses := PolicyException([name], mode, [Variable(x)]);
      && Accepts(schemas, p)
      && (t in {ReplyT(mode), NullT} <==> Accepts(schemas, p.(validations := [Variable(x)])))
      && (t == BoolT <==> ExceptionsCompile(schemas, p, [uses]))
  {
    var t := TypeOf(e, CheckerOf(schemas, mode, map[])).value;
    var decls := [Declaration(x, e)];
    var uses := PolicyException([name], mode, [Variable(x)]);
    assert decls[..0] == [];
    assert ScopeOf(schemas, mode, decls) == Some(map[x := t]);
    var c := CheckerOf(schemas, mode, map[x := t]);
    assert TypeOf([Variable(x)][0], c) == Some(t);
    assert ExceptionCompiles(c, [uses][0]) <==> IsCondition(uses.matchConditions[0], c);
  }

  // ------------------------------------------------------------ scoping laws

  function NamesOf(decls: seq<Declaration>): set<Name> {
    set i | 0 <= i < |decls| :: decls[i].name
  }

  lemma NamesAppend(decls: seq<Declaration>, d: Declaration)
    ensures NamesOf(decls + [d]) == NamesOf(decls) + {d.name}
  {
    var all := decls + [d];
    forall n | n in NamesOf(decls) ensures n in NamesOf(all) {
      var i :| 0 <= i < |decls| && decls[i].name == n;
      assert all[i].name == n;
    }
    assert all[|decls|].name in NamesOf(all);
  }

  ghost predicate Unique(decls: seq<Declaration>) {
    forall i, j :: 0 <= i < j < |decls| ==> decls[i].name != decls[j].name
  }

  /** Every variable reads variables declared earlier in the list, and no others. */
  ghost predicate Ordered(decls: seq<Declaration>) {
    forall i :: 0 <= i < |decls| ==> Reads(decls[i].expression) <= NamesOf(decls[..i])
  }

  lemma {:induction false} ScopeIsOrdered(schemas: Schemas, mode: Mode, decls: seq<Declaration>)
    requires ScopeOf(schemas, mode, decls).Some?
    ensures Ordered(decls) && ScopeOf(schemas, mode, decls).value.Keys == NamesOf(decls)
  {
    if decls == [] {
    } else {
      var init, d := decls[..|decls| - 1], decls[|decls| - 1];
      ScopeIsOrdered(schemas, mode, init);
      TypedReads(d.expression, CheckerOf(schemas, mode, ScopeOf(schemas, mode, init).value));
      forall i | 0 <= i < |decls| ensures Reads(decls[i].expression) <= NamesOf(decls[..i]) {
        assert i < |init| ==> init[i] == decls[i] && init[..i] == decls[..i];
      }
      NamesAppend(init, d);
      assert decls == init + [d];
    }
  }

  /** In a policy that compiles, match conditions read no variable, variables read
      earlier variables only, and rules and exception conditions read declared ones. */
  lemma CompiledScoping(schemas: Schemas, p: ValidatingPolicy, exs: seq<PolicyException>)
    requires Accepts(schemas, p) && ExceptionsCompile(schemas, p, exs)
    ensures forall i :: 0 <= i < |p.matchConditions| ==> Reads(p.matchConditions[i]) == {}
    ensures Ordered(p.variables)
    ensures forall i :: 0 <= i < |p.validations| ==> Reads(p.validations[i]) <= NamesOf(p.variables)
    ensures forall k, i :: 0 <= k < |exs| && 0 <= i < |exs[k].matchConditions| ==>
              Reads(exs[k].matchConditions[i]) <= NamesOf(p.variables)
  {
    ScopeIsOrdered(schemas, p.mode, p.variables);
    var c := CheckerOf(schemas, p.mode, ScopeOf(schemas, p.mode, p.variables).value);
    forall i | 0 <= i < |p.matchConditions| ensures Reads(p.matchConditions[i]) == {} {
      TypedReads(p.matchConditions[i], CheckerOf(schemas, p.mode, map[]));
    }
    forall i | 0 <= i < |p.validations| ensures Reads(p.validations[i]) <= NamesOf(p.variables) {
      TypedReads(p.validations[i], c);
    }
    forall k, i | 0 <= k < |exs| && 0 <= i < |exs[k].matchConditions|
      ensures Reads(exs[k].matchConditions[i]) <= NamesOf(p.variables)
    {
      assert ExceptionCompiles(c, exs[k]);
      TypedReads(exs[k].matchConditions[i], c);
    }
  }

  ghost predicate Declares(order: seq<Declaration>, programs: map<Name, Expr>) {
    forall i :: 0 <= i < |order| ==> order[i].name in programs && order[i].expression == programs[order[i].name]
  }

  lemma {:induction false} ProgramsNames(decls: seq<Declaration>)
    ensures Programs(decls).Keys == NamesOf(decls)
  {
    if decls == [] {
    } else {
      var init, d := decls[..|decls| - 1], decls[|decls| - 1];
      ProgramsNames(init);
      NamesAppend(init, d);
      assert decls == init + [d];
    }
  }

  /** With unique names the program map holds each declaration's own expression. */
  lemma {:induction false} ProgramsOfUnique(decls: seq<Declaration>)
    requires Unique(decls)
    ensures Programs(decls).Keys == NamesOf(decls) && Declares(decls, Programs(decls))
  {
    ProgramsNames(decls);
    if decls == [] {
    } else {
      var init, d := decls[..|decls| - 1], decls[|decls| - 1];
      ProgramsOfUnique(init);
      forall i | 0 <= i < |init|
        ensures decls[i].name in Programs(decls) && decls[i].expression == Programs(decls)[decls[i].name]
      {
        assert init[i] == decls[i] && decls[i].name != d.name;
      }
    }
  }

  // ---------------------------------------------------------- repeated names

  /** `order` declares each of the programs once and reads earlier ones only. */
  ghost predicate Sequences(order: seq<Declaration>, programs: map<Name, Expr>) {
    Unique(order) && Ordered(order) && Programs(order) == programs
  }

  /** Every program of these names reads one of these names again. */
  ghost predicate ReadsItself(programs: map<Name, Expr>, names: set<Name>) {
    forall n :: n in names && n in programs ==> Reads(programs[n]) * names != {}
  }

  ghost predicate Knot(programs: map<Name, Expr>, names: set<Name>) {
    names != {} && names <= programs.Keys && ReadsItself(programs, names)
  }

  ghost predicate Knotted(programs: map<Name, Expr>) {
    exists names :: Knot(programs, names)
  }

  /** The programs left after compiling read declared variables only. */
  lemma {:induction false} SurvivorsReadDeclared(schemas: Schemas, mode: Mode, decls: seq<Declaration>)
    requires ScopeOf(schemas, mode, decls).Some?
    ensures Programs(decls).Keys == ScopeOf(schemas, mode, decls).value.Keys
    ensures forall n :: n in Programs(decls) ==> Reads(Programs(decls)[n]) <= Programs(decls).Keys
  {
    if decls == [] {
    } else {
      var init, d := decls[..|decls| - 1], decls[|decls| - 1];
      SurvivorsReadDeclared(schemas, mode, init);
      TypedReads(d.expression, CheckerOf(schemas, mode, ScopeOf(schemas, mode, init).value));
    }
  }

  /** In an order that reads backwards only, no such set of names can begin. */
  lemma {:induction false} KnotNeverBegins(order: seq<Declaration>, programs: map<Name, Expr>, names: set<Name>, k: nat)
    requires Ordered(order) && Declares(order, programs) && ReadsItself(programs, names) && k <= |order|
    ensures NamesOf(order[..k]) !! names
  {
    if k == 0 {
    } else {
      KnotNeverBegins(order, programs, names, k - 1);
      var before, d := order[..k - 1], order[k - 1];
      assert order[..k] == before + [d];
      NamesAppend(before, d);
      assert Reads(d.expression) <= NamesOf(before);
    }
  }

  lemma SequencedHasNoKnot(order: seq<Declaration>, names: set<Name>)
    requires Unique(order) && Ordered(order)
    ensures !Knot(Programs(order), names)
  {
    ProgramsOfUnique(order);
    if ReadsItself(Programs(order), names) {
      assert forall i :: 0 <= i < |order| ==> order[i].name in NamesOf(order);
      KnotNeverBegins(order, Programs(order), names, |order|);
      assert order[..|order|] == order;
      assert names <= NamesOf(order) ==> names == {};
    }
  }

  /** Without a knot, the declarations placed so far can always be continued. */
  lemma {:induction false} Place(programs: map<Name, Expr>, placed: seq<Declaration>) returns (order: seq<Declaration>)
    requires !Knotted(programs) && forall n :: n in programs ==> Reads(programs[n]) <= programs.Keys
    requires Unique(placed) && Ordered(placed)
    requires Declares(placed, programs)
    ensures Sequences(order, programs)
    decreases programs.Keys - NamesOf(placed)
  {
    var rest := programs.Keys - NamesOf(placed);
    if rest == {} {
      order := placed;
      ProgramsOfUnique(order);
      assert forall n :: n in programs ==> n in rest || n in NamesOf(order);
      assert Programs(order) == programs;
    } else {
      assert !Knot(programs, rest);
      var n :| n in rest && Reads(programs[n]) * rest == {};
      var d := Declaration(n, programs[n]);
      forall m | m in Reads(d.expression) ensures m in NamesOf(placed) {
        assert m !in Reads(programs[n]) * rest;
      }
      PlaceOne(placed, d);
      order := Place(programs, placed + [d]);
    }
  }

  lemma PlaceOne(placed: seq<Declaration>, d: Declaration)
    requires Unique(placed) && Ordered(placed)
    requires d.name !in NamesOf(placed) && Reads(d.expression) <= NamesOf(placed)
    ensures Unique(placed + [d]) && Ordered(placed + [d]) && NamesOf(placed + [d]) == NamesOf(placed) + {d.name}
  {
    var all := placed + [d];
    NamesAppend(placed, d);
    forall i | 0 <= i < |all| ensures Reads(all[i].expression) <= NamesOf(all[..i]) {
      assert all[..i] == placed[..i];
      assert placed[..|placed|] == placed;
    }
    assert forall i :: 0 <= i < |placed| ==> all[i].name in NamesOf(placed);
  }

  /** Variables that compile can be put in an order in which every read goes to an
      earlier one exactly when no set of names is knotted: every name in it reading
      one of them. */
  lemma SequencedExactly(schemas: Schemas, mode: Mode, decls: seq<Declaration>)
    requires ScopeOf(schemas, mode, decls).Some?
    ensures (exists order :: Sequences(order, Programs(decls))) <==> !Knotted(Programs(decls))
  {
    var programs := Programs(decls);
    if !Knotted(programs) {
      SurvivorsReadDeclared(schemas, mode, decls);
      var order := Place(programs, []);
    } else {
      var names :| Knot(programs, names);
      forall order ensures !Sequences(order, programs) {
        if Unique(order) && Ordered(order) {
          SequencedHasNoKnot(order, names);
        }
      }
    }
  }

  /** Unique names never knot: the declarations themselves are such an order. */
  lemma UniqueNeverKnots(schemas: Schemas, mode: Mode, decls: seq<Declaration>)
    requires ScopeOf(schemas, mode, decls).Some? && Unique(decls)
    ensures Sequences(decls, Programs(decls)) && !Knotted(Programs(decls))
  {
    ScopeIsOrdered(schemas, mode, decls);
    assert Sequences(decls, Programs(decls));
    SequencedExactly(schemas, mode, decls);
  }

  lemma ProgramsOfTwo(d: Declaration, e: Declaration)
    ensures Programs([e]) == map[e.name := e.expression]
    ensures Programs([d, e]) == map[d.name := d.expression][e.name := e.expression]
  {
    assert [d, e][..1] == [d] && [d][..0] == [] && [e][..0] == [];
  }

  /** A repeated name can knot, because the later program is checked against the type of
      the earlier one; it need not. */
  lemma RepeatedNameMayKnot(schemas: Schemas, mode: Mode, x: Name)
    ensures var decls := [Declaration(x, BoolLit(true)), Declaration(x, Variable(x))];
            ScopeOf(schemas, mode, decls).Some? && Knotted(Programs(decls))
    ensures var decls := [Declaration(x, BoolLit(true)), Declaration(x, BoolLit(false))];
            ScopeOf(schemas, mode, decls).Some? && !Knotted(Programs(decls))
  {
    var d0, d1, d2 := Declaration(x, BoolLit(true)), Declaration(x, Variable(x)), Declaration(x, BoolLit(false));
    assert [d0, d1][..1] == [d0] && [d0, d2][..1] == [d0] && [d0][..0] == [];
    assert ScopeOf(schemas, mode, [d0]) == Some(map[x := BoolT]);
    ProgramsOfTwo(d0, d1);
    ProgramsOfTwo(d0, d2);
    assert Programs([d0, d1]) == map[x := Variable(x)];
    assert Programs([d0, d2]) == Programs([d2]);
    assert x in Reads(Variable(x)) * {x};
    assert Knot(Programs([d0, d1]), {x});
    forall names ensures !Knot(Programs([d0, d2]), names) {
      SequencedHasNoKnot([d2], names);
    }
  }

  // ------------------------------------------------------------ what is read

  /** A chain of reads: it starts at one of `roots`, and each program reads the next. */
  ghost predicate ReadPath(programs: map<Name, Expr>, roots: set<Name>, path: seq<Name>) {
    && path != [] && path[0] in roots
    && (forall i :: 0 <= i < |path| ==> path[i] in programs)
    && forall i :: 0 < i < |path| ==> path[i] in Reads(programs[path[i - 1]])
  }

  ghost predicate EndsAt(path: seq<Name>, n: Name) {
    path != [] && path[|path| - 1] == n
  }

  /** The names that a chain of reads comes to. */
  ghost function Reached(programs: map<Name, Expr>, roots: set<Name>): set<Name> {
    set n | n in programs && exists path :: ReadPath(programs, roots, path) && EndsAt(path, n)
  }

  lemma RootsReached(programs: map<Name, Expr>, roots: set<Name>)
    requires roots <= programs.Keys
    ensures roots <= Reached(programs, roots)
  {
    forall n | n in roots ensures n in Reached(programs, roots) {
      assert ReadPath(programs, roots, [n]) && EndsAt([n], n);
    }
  }

  lemma ReachedGoesOn(programs: map<Name, Expr>, roots: set<Name>, n: Name)
    requires n in Reached(programs, roots) && Reads(programs[n]) <= programs.Keys
    ensures Reads(programs[n]) <= Reached(programs, roots)
  {
    var path :| ReadPath(programs, roots, path) && EndsAt(path, n);
    forall m | m in Reads(programs[n]) ensures m in Reached(programs, roots) {
      var longer := path + [m];
      assert ReadPath(programs, roots, longer) && EndsAt(longer, m);
    }
  }

  /** No chain of reads leaves a set that is closed under reading. */
  lemma {:induction false} PathStaysIn(programs: map<Name, Expr>, roots: set<Name>, names: set<Name>, path: seq<Name>, i: nat)
    requires ReadPath(programs, roots, path) && i < |path| && roots <= names
    requires forall n :: n in names && n in programs ==> Reads(programs[n]) <= names
    ensures path[i] in names
  {
    if i == 0 {
    } else {
      PathStaysIn(programs, roots, names, path, i - 1);
    }
  }

  /** A knot among the names that are reached. */
  ghost predicate KnottedFrom(programs: map<Name, Expr>, roots: set<Name>) {
    exists names :: Knot(programs, names) && names <= Reached(programs, roots)
  }

  /** `order` declares programs once, reading earlier ones only, and has all of `roots`. */
  ghost predicate Supports(order: seq<Declaration>, programs: map<Name, Expr>, roots: set<Name>) {
    Unique(order) && Ordered(order) && Declares(order, programs) && roots <= NamesOf(order)
  }

  lemma OrderIsClosed(order: seq<Declaration>, programs: map<Name, Expr>, n: Name)
    requires Ordered(order) && Declares(order, programs) && n in NamesOf(order)
    ensures n in programs && Reads(programs[n]) <= NamesOf(order)
  {
    var i :| 0 <= i < |order| && order[i].name == n;
    forall m | m in Reads(order[i].expression) ensures m in NamesOf(order) {
      assert m in NamesOf(order[..i]);
      var j :| 0 <= j < i && order[..i][j].name == m;
      assert order[j].name == m;
    }
  }

  lemma ReachedInOrder(order: seq<Declaration>, programs: map<Name, Expr>, roots: set<Name>)
    requires Supports(order, programs, roots)
    ensures Reached(programs, roots) <= NamesOf(order)
  {
    forall n | n in NamesOf(order) && n in programs ensures Reads(programs[n]) <= NamesOf(order) {
      OrderIsClosed(order, programs, n);
    }
    forall n | n in Reached(programs, roots) ensures n in NamesOf(order) {
      var path :| ReadPath(programs, roots, path) && EndsAt(path, n);
      PathStaysIn(programs, roots, NamesOf(order), path, |path| - 1);
    }
  }

  lemma SupportedHasNoKnot(order: seq<Declaration>, programs: map<Name, Expr>, roots: set<Name>, names: set<Name>)
    requires Supports(order, programs, roots) && names <= Reached(programs, roots)
    ensures !Knot(programs, names)
  {
    ReachedInOrder(order, programs, roots);
    if ReadsItself(programs, names) {
      KnotNeverBegins(order, programs, names, |order|);
      assert order[..|order|] == order;
      assert names == {};
    }
  }

  lemma SupportExists(programs: map<Name, Expr>, roots: set<Name>) returns (order: seq<Declaration>)
    requires !KnottedFrom(programs, roots) && roots <= programs.Keys
    requires forall n :: n in programs ==> Reads(programs[n]) <= programs.Keys
    ensures Supports(order, programs, roots)
  {
    var reached := Reached(programs, roots);
    var some := map n | n in programs && n in reached :: programs[n];
    forall names ensures !Knot(some, names) {
      if Knot(some, names) {
        assert Knot(programs, names) && names <= reached;
      }
    }
    forall n | n in some ensures Reads(some[n]) <= some.Keys {
      ReachedGoesOn(programs, roots, n);
    }
    RootsReached(programs, roots);
    order := Place(some, []);
    ProgramsOfUnique(order);
  }

  /** The programs that a set of reads needs can be put in order exactly when no knot is
      among the names that these reads come to; a knot that nothing reads is harmless. */
  lemma SupportedExactly(programs: map<Name, Expr>, roots: set<Name>)
    requires roots <= programs.Keys && forall n :: n in programs ==> Reads(programs[n]) <= programs.Keys
    ensures (exists order :: Supports(order, programs, roots)) <==> !KnottedFrom(programs, roots)
  {
    if !KnottedFrom(programs, roots) {
      var order := SupportExists(programs, roots);
    } else {
      var names :| Knot(programs, names) && names <= Reached(programs, roots);
      forall order ensures !Supports(order, programs, roots) {
        if Supports(order, programs, roots) {
          SupportedHasNoKnot(order, programs, roots, names);
        }
      }
    }
  }

  // ------------------------------------------------------------- kept types

  ghost predicate KeepsTypeAt(schemas: Schemas, mode: Mode, decls: seq<Declaration>, scope: map<Name, Type>, i: nat)
    requires i < |decls|
  {
    var so := ScopeOf(schemas, mode, decls[..i + 1]);
    so.Some? && decls[i].name in so.value && decls[i].name in scope && so.value[decls[i].name] == scope[decls[i].name]
  }

  /** Every declaration gives its name the type that the name has in `scope`. */
  ghost predicate KeepsTypes(schemas: Schemas, mode: Mode, decls: seq<Declaration>, scope: map<Name, Type>) {
    forall i :: 0 <= i < |decls| ==> KeepsTypeAt(schemas, mode, decls, scope, i)
  }

  lemma KeepsTypesEarlier(schemas: Schemas, mode: Mode, decls: seq<Declaration>, scope: map<Name, Type>)
    requires decls != []
    ensures KeepsTypes(schemas, mode, decls, scope) <==>
      && KeepsTypes(schemas, mode, decls[..|decls| - 1], scope)
      && KeepsTypeAt(schemas, mode, decls, scope, |decls| - 1)
  {
    var init := decls[..|decls| - 1];
    forall i | 0 <= i < |init|
      ensures KeepsTypeAt(schemas, mode, init, scope, i) <==> KeepsTypeAt(schemas, mode, decls, scope, i)
    {
      assert init[..i + 1] == decls[..i + 1] && init[i] == decls[i];
    }
  }

  /** Then the program left under each name has the name's type in that scope. */
  lemma {:induction false} SurvivorsKeepTypes(schemas: Schemas, mode: Mode, decls: seq<Declaration>, scope: map<Name, Type>)
    requires ScopeOf(schemas, mode, decls).Some? && KeepsTypes(schemas, mode, decls, scope)
    ensures Extends(ScopeOf(schemas, mode, decls).value, scope)
    ensures forall n :: n in Programs(decls) ==>
      n in scope && TypeOf(Programs(decls)[n], CheckerOf(schemas, mode, scope)) == Some(scope[n])
  {
    if decls == [] {
    } else {
      var init, d := decls[..|decls| - 1], decls[|decls| - 1];
      KeepsTypesEarlier(schemas, mode, decls, scope);
      assert decls[..|decls|] == decls;
      assert KeepsTypeAt(schemas, mode, decls, scope, |decls| - 1);
      SurvivorsKeepTypes(schemas, mode, init, scope);
      TypeInLargerScope(d.expression, CheckerOf(schemas, mode, ScopeOf(schemas, mode, init).value), scope);
    }
  }

  /** Unique names keep their types: there is nothing to change them. */
  lemma {:induction false} UniqueKeepsTypes(schemas: Schemas, mode: Mode, decls: seq<Declaration>)
    requires ScopeOf(schemas, mode, decls).Some? && Unique(decls)
    ensures KeepsTypes(schemas, mode, decls, ScopeOf(schemas, mode, decls).value)
  {
    if decls == [] {
    } else {
      var init, d := decls[..|decls| - 1], decls[|decls| - 1];
      var scope, scope' := ScopeOf(schemas, mode, init).value, ScopeOf(schemas, mode, decls).value;
      UniqueKeepsTypes(schemas, mode, init);
      forall i | 0 <= i < |init| ensures KeepsTypeAt(schemas, mode, init, scope', i) {
        assert KeepsTypeAt(schemas, mode, init, scope, i);
        assert init[i] == decls[i] && decls[i].name != d.name;
      }
      assert decls[..|decls|] == decls;
      KeepsTypesEarlier(schemas, mode, decls, scope');
    }
  }
}
