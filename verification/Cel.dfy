/** Typing and evaluation of the reduced expression language. */
module Cel {
  import opened Api

  datatype Type = BoolT | NullT | ReplyT(mode: Mode) | OtherT(text: string) | DynT

  /** `Error` is the error value that CEL evaluation carries like any other value. */
  datatype Val = Bool(b: bool) | Null | Replied(response: Response) | Other(id: int) | Error

  type Request = map<string, Val>

  /** What an expression is checked against: the evaluation mode, the declared fields
      of `object`, and the fields of `variables` registered so far. */
  datatype Checker = Checker(mode: Mode, schema: map<string, Type>, scope: map<Name, Type>)

  /** The common type of two branches; null fits a response. */
  function Join(a: Type, b: Type): Option<Type> {
    if a == b then Some(a)
    else if a.DynT? || b.DynT? then Some(DynT)
    else if a.NullT? && b.ReplyT? then Some(b)
    else if a.ReplyT? && b.NullT? then Some(a)
    else None
  }

  predicate Boolean(t: Option<Type>) { t == Some(BoolT) || t == Some(DynT) }

  function TypeOf(e: Expr, c: Checker): Option<Type> {
    match e
    case BoolLit(_) => Some(BoolT)
    case NullLit => Some(NullT)
    case Reply(r) => if r.mode == c.mode then Some(ReplyT(r.mode)) else None
    case ObjectField(f) => if f in c.schema then Some(c.schema[f]) else None
    case Variable(n) => if n in c.scope then Some(c.scope[n]) else None
    case Not(a) => if Boolean(TypeOf(a, c)) then Some(BoolT) else None
    case And(a, b) => if Boolean(TypeOf(a, c)) && Boolean(TypeOf(b, c)) then Some(BoolT) else None
    case Or(a, b) => if Boolean(TypeOf(a, c)) && Boolean(TypeOf(b, c)) then Some(BoolT) else None
    case Cond(t, y, n) =>
      var ty, tn := TypeOf(y, c), TypeOf(n, c);
      if Boolean(TypeOf(t, c)) && ty.Some? && tn.Some? then Join(ty.value, tn.value) else None
  }

  function AndVal(a: Val, b: Val): Val {
    if a == Bool(false) || b == Bool(false) then Bool(false)
    else if a == Bool(true) && b == Bool(true) then Bool(true)
    else Error
  }

  function OrVal(a: Val, b: Val): Val {
    if a == Bool(true) || b == Bool(true) then Bool(true)
    else if a == Bool(false) && b == Bool(false) then Bool(false)
    else Error
  }

  function Eval(e: Expr, req: Request, env: map<Name, Val>): Val {
    match e
    case BoolLit(b) => Bool(b)
    case NullLit => Null
    case Reply(r) => Replied(r)
    case ObjectField(f) => if f in req then req[f] else Error
    case Variable(n) => if n in env then env[n] else Error
    case Not(a) => (var v := Eval(a, req, env); if v.Bool? then Bool(!v.b) else Error)
    case And(a, b) => AndVal(Eval(a, req, env), Eval(b, req, env))
    case Or(a, b) => OrVal(Eval(a, req, env), Eval(b, req, env))
    case Cond(t, y, n) =>
      var v := Eval(t, req, env);
      if v == Bool(true) then Eval(y, req, env) else if v == Bool(false) then Eval(n, req, env) else Error
  }

  /** Conjunction is false as soon as one side is, whatever the other one, an error
      included, is; it is true when both are, and an error otherwise. */
  lemma AndExactly(a: Expr, b: Expr, req: Request, env: map<Name, Val>)
    ensures var v, w, r := Eval(a, req, env), Eval(b, req, env), Eval(And(a, b), req, env);
      && (r == Bool(false) <==> v == Bool(false) || w == Bool(false))
      && (r == Bool(true) <==> v == Bool(true) && w == Bool(true))
      && (r.Bool? || r == Error)
  {
  }

  /** Negation turns one connective into the other, errors included. */
  lemma DeMorgan(a: Expr, b: Expr, req: Request, env: map<Name, Val>)
    ensures Eval(Not(And(a, b)), req, env) == Eval(Or(Not(a), Not(b)), req, env)
    ensures Eval(Not(a), req, env) == Bool(true) <==> Eval(a, req, env) == Bool(false)
    ensures Eval(Not(a), req, env) == Bool(false) <==> Eval(a, req, env) == Bool(true)
  {
  }

  /** A conditional takes one branch only, by its test. */
  lemma CondExactly(t: Expr, y: Expr, n: Expr, req: Request, env: map<Name, Val>)
    ensures Eval(t, req, env) == Bool(true) ==> Eval(Cond(t, y, n), req, env) == Eval(y, req, env)
    ensures Eval(t, req, env) == Bool(false) ==> Eval(Cond(t, y, n), req, env) == Eval(n, req, env)
    ensures !Eval(t, req, env).Bool? ==> Eval(Cond(t, y, n), req, env) == Error
  {
  }

  /** What checks: an operator whose operands are boolean or dynamic, and a conditional
      whose branches have one type, or one of them is null and the other a response. */
  lemma ChecksExactly(a: Expr, b: Expr, t: Expr, c: Checker)
    ensures TypeOf(And(a, b), c).Some? <==>
            TypeOf(a, c) in {Some(BoolT), Some(DynT)} && TypeOf(b, c) in {Some(BoolT), Some(DynT)}
    ensures TypeOf(Or(a, b), c) == TypeOf(And(a, b), c)
    ensures TypeOf(Not(a), c) == TypeOf(And(a, a), c)
    ensures TypeOf(t, c) == Some(BoolT) && TypeOf(a, c).Some? && TypeOf(b, c).Some? ==>
      var ta, tb := TypeOf(a, c).value, TypeOf(b, c).value;
      TypeOf(Cond(t, a, b), c).Some? <==>
        ta == tb || DynT in {ta, tb} || (ta.NullT? && tb.ReplyT?) || (ta.ReplyT? && tb.NullT?)
  {
  }

  /** The variables that an expression may read. */
  function Reads(e: Expr): set<Name> {
    match e
    case BoolLit(_) => {}
    case NullLit => {}
    case Reply(_) => {}
    case ObjectField(_) => {}
    case Variable(n) => {n}
    case Not(a) => Reads(a)
    case And(a, b) => Reads(a) + Reads(b)
    case Or(a, b) => Reads(a) + Reads(b)
    case Cond(t, y, n) => Reads(t) + Reads(y) + Reads(n)
  }

  /** An expression that type-checks reads registered variables only. */
  lemma {:induction false} TypedReads(e: Expr, c: Checker)
    requires TypeOf(e, c).Some?
    ensures Reads(e) <= c.scope.Keys
  {
    match e
    case BoolLit(_) =>
    case NullLit =>
    case Reply(_) =>
    case ObjectField(_) =>
    case Variable(_) =>
    case Not(a) => TypedReads(a, c);
    case And(a, b) => TypedReads(a, c); TypedReads(b, c);
    case Or(a, b) => TypedReads(a, c); TypedReads(b, c);
    case Cond(t, y, n) => TypedReads(t, c); TypedReads(y, c); TypedReads(n, c);
  }

  ghost predicate AgreeOn(names: set<Name>, env: map<Name, Val>, env': map<Name, Val>) {
    forall n :: n in names ==> (n in env <==> n in env') && (n in env ==> env[n] == env'[n])
  }

  /** Evaluation depends on the variables read and on no others. */
  lemma {:induction false} EvalReads(e: Expr, req: Request, env: map<Name, Val>, env': map<Name, Val>)
    requires AgreeOn(Reads(e), env, env')
    ensures Eval(e, req, env) == Eval(e, req, env')
  {
    match e
    case BoolLit(_) =>
    case NullLit =>
    case Reply(_) =>
    case ObjectField(_) =>
    case Variable(_) =>
    case Not(a) => EvalReads(a, req, env, env');
    case And(a, b) => EvalReads(a, req, env, env'); EvalReads(b, req, env, env');
    case Or(a, b) => EvalReads(a, req, env, env'); EvalReads(b, req, env, env');
    case Cond(t, y, n) => EvalReads(t, req, env, env'); EvalReads(y, req, env, env'); EvalReads(n, req, env, env');
  }

  /** An error inhabits every type; null is a response. */
  predicate HasType(v: Val, t: Type) {
    v.Error? ||
    match t
    case BoolT => v.Bool?
    case NullT => v.Null?
    case ReplyT(m) => v.Null? || (v.Replied? && v.response.mode == m)
    case OtherT(_) => v.Other?
    case DynT => true
  }

  ghost predicate Conforms(req: Request, schema: map<string, Type>) {
    forall f :: f in req && f in schema ==> HasType(req[f], schema[f])
  }

  /** The variables among `names` hold values of their registered types. */
  ghost predicate Inhabits(env: map<Name, Val>, scope: map<Name, Type>, names: set<Name>) {
    forall n :: n in names && n in scope ==> n in env && HasType(env[n], scope[n])
  }

  /** A well-typed expression evaluates to a value of its type or to an error. */
  lemma {:induction false} EvalHasType(e: Expr, c: Checker, req: Request, env: map<Name, Val>)
    requires TypeOf(e, c).Some? && Conforms(req, c.schema) && Inhabits(env, c.scope, Reads(e))
    ensures HasType(Eval(e, req, env), TypeOf(e, c).value)
  {
    match e
    case BoolLit(_) =>
    case NullLit =>
    case Reply(_) =>
    case ObjectField(_) =>
    case Variable(_) =>
    case Not(a) =>
    case And(a, b) =>
    case Or(a, b) =>
    case Cond(t, y, n) => EvalHasType(y, c, req, env); EvalHasType(n, c, req, env);
  }

  ghost predicate Extends(scope: map<Name, Type>, scope': map<Name, Type>) {
    forall n :: n in scope ==> n in scope' && scope'[n] == scope[n]
  }

  /** More registered fields do not change the type of what already checks. */
  lemma {:induction false} TypeInLargerScope(e: Expr, c: Checker, scope: map<Name, Type>)
    requires TypeOf(e, c).Some? && Extends(c.scope, scope)
    ensures TypeOf(e, c.(scope := scope)) == TypeOf(e, c)
  {
    match e
    case BoolLit(_) =>
    case NullLit =>
    case Reply(_) =>
    case ObjectField(_) =>
    case Variable(_) =>
    case Not(a) => TypeInLargerScope(a, c, scope);
    case And(a, b) => TypeInLargerScope(a, c, scope); TypeInLargerScope(b, c, scope);
    case Or(a, b) => TypeInLargerScope(a, c, scope); TypeInLargerScope(b, c, scope);
    case Cond(t, y, n) =>
      TypeInLargerScope(t, c, scope);
      TypeInLargerScope(y, c, scope);
      TypeInLargerScope(n, c, scope);
  }
}
