/** The API objects the server works on: policies, exceptions and the small
    expression language their conditions, variables and rules are written in. */
module Api {

  /** The name of a policy, an exception or a variable. */
  datatype Name = Name(text: string)

  datatype Option<+T> = None | Some(value: T)

  /** The evaluation mode of a policy or an exception; any other string is `Unsupported`. */
  datatype Mode = Envoy | HTTP | Unsupported(text: string)

  datatype FailurePolicy = Fail | Ignore

  /** A check response, as far as a decision depends on it: which front end it is
      for, and which of its two optional halves are set. `tag` stands for the rest. */
  datatype Response = Response(mode: Mode, denied: bool, ok: bool, tag: int)

  /** A reduced CEL: reads of `object.f` and `variables.n`, the boolean operators,
      the conditional, the literals and a response constructor. */
  datatype Expr =
    | BoolLit(b: bool)
    | NullLit
    | Reply(response: Response)
    | ObjectField(field: string)
    | Variable(name: Name)
    | Not(e: Expr)
    | And(left: Expr, right: Expr)
    | Or(left: Expr, right: Expr)
    | Cond(test: Expr, yes: Expr, no: Expr)

  datatype Declaration = Declaration(name: Name, expression: Expr)

  datatype ValidatingPolicy = ValidatingPolicy(
    name: Name,
    resourceVersion: string,
    mode: Mode,
    failurePolicy: Option<FailurePolicy>,
    matchConditions: seq<Expr>,
    variables: seq<Declaration>,
    validations: seq<Expr>)

  /** `policyRefs` holds the names of the referenced policies. */
  datatype PolicyException = PolicyException(
    policyRefs: seq<Name>,
    mode: Mode,
    matchConditions: seq<Expr>)
}
