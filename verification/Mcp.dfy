/** MCP requests: decoding by method, the argument map, and the coercing getters. */
module Mcp {
  import opened Api
  import Decimal

  /** A dynamic value: what JSON decoding, or a Go caller, can leave in an argument. */
  datatype Arg =
    | Nil
    | Text(s: string)
    | Int(n: int)
    | Float(r: real)
    | Boolean(b: bool)
    | Texts(texts: seq<string>)
    | Ints(ints: seq<int>)
    | Bools(bools: seq<bool>)
    | List(items: seq<Arg>)
    | Object(members: map<string, Arg>)

  type Args = map<string, Arg>

  /** The parameter structures, by what their arguments look like. A nil map is None. */
  datatype Params =
    | ToolCallParams(arguments: Arg)
    | ReadResourceParams(members: Option<Args>)
    | GetPromptParams(texts: Option<map<string, string>>)
    | OtherParams

  datatype Field = Initialize | Paginated | ResourceRead | ToolCall | SetLogLevel | PromptGet | Elicitation

  /** A request: its method, its id and the params fields that are set. */
  datatype Request = Request(methodName: string, id: string, params: map<Field, Params>)

  predicate Fits(f: Field, p: Params) {
    match f
    case ToolCall => p.ToolCallParams?
    case ResourceRead => p.ReadResourceParams?
    case PromptGet => p.GetPromptParams?
    case _ => p.OtherParams?
  }

  ghost predicate WellTyped(r: Request) {
    forall f :: f in r.params ==> Fits(f, r.params[f])
  }

  /** The field that a method's params go to. */
  function FieldFor(methodName: string): Option<Field> {
    if methodName == "initialize" then Some(Initialize)
    else if methodName == "resources/list" || methodName == "resources/templates/list" ||
            methodName == "tools/list" || methodName == "prompts/list" then Some(Paginated)
    else if methodName == "resources/read" then Some(ResourceRead)
    else if methodName == "tools/call" then Some(ToolCall)
    else if methodName == "logging/setLevel" then Some(SetLogLevel)
    else if methodName == "prompts/get" then Some(PromptGet)
    else if methodName == "elicitation/create" then Some(Elicitation)
    else None
  }

  /** What decoding a body gives: the envelope read for its method alone, the whole
      envelope, and the params read as the structure of a field. */
  datatype Body = Body(methodName: Option<string>, envelope: Option<(string, string)>, params: Field -> Option<Params>)

  /** Decoding is faithful: the two readings of the envelope see one method, and params
      decode to the structure that was asked for. */
  ghost predicate Faithful(body: Body) {
    && (body.envelope.Some? ==> body.methodName == Some(body.envelope.value.0))
    && (forall f: Field :: body.params(f).Some? ==> Fits(f, body.params(f).value))
  }

  /** The envelope decodes, and so do the params if the method has some. */
  predicate Decodes(body: Body) {
    && body.envelope.Some?
    && var f := FieldFor(body.envelope.value.0);
       f.Some? ==> body.params(f.value).Some?
  }

  /** Which field a request of each method has set. */
  ghost predicate SetFor(r: Request) {
    && (Initialize in r.params <==> r.methodName == "initialize")
    && (Paginated in r.params <==>
          r.methodName in {"resources/list", "resources/templates/list", "tools/list", "prompts/list"})
    && (ResourceRead in r.params <==> r.methodName == "resources/read")
    && (ToolCall in r.params <==> r.methodName == "tools/call")
    && (SetLogLevel in r.params <==> r.methodName == "logging/setLevel")
    && (PromptGet in r.params <==> r.methodName == "prompts/get")
    && (Elicitation in r.params <==> r.methodName == "elicitation/create")
  }

  /** Decoding fails exactly when the envelope, or the params of a method that has some,
      do not decode. It sets the field of the method to the decoded params, and no other. */
  method Parse(body: Body) returns (r: Option<Request>)
    requires Faithful(body)
    ensures r.Some? <==> Decodes(body)
    ensures r.Some? ==> (r.value.methodName, r.value.id) == body.envelope.value
    ensures r.Some? ==> forall f: Field ::
      if FieldFor(r.value.methodName) == Some(f) then f in r.value.params && Some(r.value.params[f]) == body.params(f)
      else f !in r.value.params
    ensures r.Some? ==> WellTyped(r.value) && SetFor(r.value)
  {
    if body.envelope.None? {
      return None;
    }
    var (m, id) := body.envelope.value;
    var request := Request(m, id, map[]);
    var field := FieldFor(m);
    if field.Some? {
      var params := body.params(field.value);
      if params.None? {
        return None;
      }
      request := request.(params := request.params[field.value := params.value]);
    }
    r := Some(request);
  }

  /** Building the request of a check never fails: it is the parsed request when the
      body decodes, and the method of the envelope alone otherwise. */
  method ParseMcpRequest(body: Body) returns (r: Request)
    requires Faithful(body)
    ensures body.methodName.Some? ==> r.methodName == body.methodName.value
    ensures Decodes(body) ==> r.id == body.envelope.value.1 && forall f: Field ::
      if FieldFor(r.methodName) == Some(f) then f in r.params && Some(r.params[f]) == body.params(f)
      else f !in r.params
    ensures !Decodes(body) ==> r.id == "" && r.params == map[] && (body.methodName.None? ==> r.methodName == "")
    ensures WellTyped(r) && |r.params| <= 1
  {
    var hasMethod := body.methodName.Some? && body.methodName.value != "";
    var parsed := Parse(body);
    if parsed.Some? {
      AtMostOneField(parsed.value);
      return parsed.value;
    }
    r := Request(if hasMethod then body.methodName.value else "", "", map[]);
  }

  lemma AtMostOneField(r: Request)
    requires forall f :: f in r.params ==> FieldFor(r.methodName) == Some(f)
    ensures |r.params| <= 1
  {
    if f :| f in r.params {
      assert r.params.Keys == {f};
    }
  }

  // -------------------------------------------------------------- arguments

  /** The texts of a prompt as dynamic values. */
  method Widen(texts: map<string, string>) returns (result: Args)
    ensures result == map k | k in texts :: Text(texts[k])
  {
    result := map[];
    var todo := texts.Keys;
    while todo != {}
      invariant todo <= texts.Keys
      invariant result == map k | k in texts && k !in todo :: Text(texts[k])
      decreases todo
    {
      var k :| k in todo;
      result := result[k := Text(texts[k])];
      todo := todo - {k};
    }
  }

  /** The argument map of one field, if it is one. */
  function ArgsIn(p: Params): Option<Args> {
    match p
    case ToolCallParams(a) => if a.Object? then Some(a.members) else None
    case ReadResourceParams(m) => m
    case GetPromptParams(t) => if t.Some? then Some(map k | k in t.value :: Text(t.value[k])) else None
    case OtherParams => None
  }

  function Priority(): seq<Field> { [ToolCall, ResourceRead, PromptGet] }

  /** The first argument map in the given order of fields. */
  function FirstArgs(r: Request, order: seq<Field>): Option<Args> {
    if order == [] then None
    else if order[0] in r.params && ArgsIn(r.params[order[0]]).Some? then ArgsIn(r.params[order[0]])
    else FirstArgs(r, order[1..])
  }

  /** The arguments of a tool call, if they are a map; ... */
  function ToolMap(r: Request): Option<Args>
    requires WellTyped(r)
  {
    if ToolCall in r.params && r.params[ToolCall].arguments.Object? then Some(r.params[ToolCall].arguments.members)
    else None
  }

  /** ... those of a resource read; ... */
  function ResourceMap(r: Request): Option<Args>
    requires WellTyped(r)
  {
    if ResourceRead in r.params then r.params[ResourceRead].members else None
  }

  /** ... and the texts of a prompt. */
  function PromptTexts(r: Request): Option<map<string, string>>
    requires WellTyped(r)
  {
    if PromptGet in r.params then r.params[PromptGet].texts else None
  }

  method GetArguments(r: Request) returns (args: Option<Args>)
    requires WellTyped(r)
    ensures args == FirstArgs(r, Priority())
    ensures ToolMap(r).Some? ==> args == ToolMap(r)
    ensures ToolMap(r).None? && ResourceMap(r).Some? ==> args == ResourceMap(r)
    ensures ToolMap(r).None? && ResourceMap(r).None? && PromptTexts(r).Some? ==>
      args.Some? && args.value.Keys == PromptTexts(r).value.Keys &&
      forall k :: k in args.value ==> args.value[k] == Text(PromptTexts(r).value[k])
    ensures args.None? <==> ToolMap(r).None? && ResourceMap(r).None? && PromptTexts(r).None?
  {
    var rest: seq<Field> := [ResourceRead, PromptGet];
    assert Priority()[1..] == rest && rest[1..] == [PromptGet] && [PromptGet][1..] == [];
    assert FirstArgs(r, rest[1..]) == if PromptGet in r.params then ArgsIn(r.params[PromptGet]) else None;
    if ToolCall in r.params && r.params[ToolCall].arguments.Object? {
      return Some(r.params[ToolCall].arguments.members);
    }
    if ResourceRead in r.params && r.params[ResourceRead].members.Some? {
      return r.params[ResourceRead].members;
    }
    if PromptGet in r.params && r.params[PromptGet].texts.Some? {
      var wide := Widen(r.params[PromptGet].texts.value);
      return Some(wide);
    }
    args := None;
  }

  /** The params whose arguments are returned as they are. */
  function RawParams(r: Request): Option<Params> {
    if ToolCall in r.params then Some(r.params[ToolCall])
    else if ResourceRead in r.params then Some(r.params[ResourceRead])
    else if PromptGet in r.params then Some(r.params[PromptGet])
    else None
  }

  lemma {:induction false} FirstArgsOfOne(r: Request, order: seq<Field>, f: Field)
    requires r.params.Keys <= {f}
    ensures FirstArgs(r, order) == if f in order && f in r.params then ArgsIn(r.params[f]) else None
  {
    if order == [] {
    } else {
      FirstArgsOfOne(r, order[1..], f);
      assert order == [order[0]] + order[1..];
    }
  }

  /** In a parsed request at most one field is set, so the order in which the fields are
      tried never matters, and the argument map is the raw arguments read as a map. */
  lemma PriorityNeverMatters(r: Request, order: seq<Field>)
    requires |r.params| <= 1
    requires ToolCall in order && ResourceRead in order && PromptGet in order
    requires WellTyped(r)
    ensures FirstArgs(r, order) == FirstArgs(r, Priority())
    ensures FirstArgs(r, Priority()) == if RawParams(r).Some? then ArgsIn(RawParams(r).value) else None
  {
    var f := if r.params.Keys == {} then ToolCall else OnlyField(r.params.Keys);
    assert r.params.Keys <= {f};
    FirstArgsOfOne(r, order, f);
    FirstArgsOfOne(r, Priority(), f);
    assert ToolCall in Priority() && ResourceRead in Priority() && PromptGet in Priority() by {
      assert Priority()[0] == ToolCall && Priority()[1] == ResourceRead && Priority()[2] == PromptGet;
    }
  }

  ghost function OnlyField(fs: set<Field>): (f: Field)
    requires |fs| == 1
    ensures fs == {f}
  {
    var f :| f in fs;
    assert |fs - {f}| == 0;
    f
  }

  // ---------------------------------------------------------------- getters

  function Truncated(r: real): int { if r >= 0.0 then r.Floor else -(-r).Floor }

  function ParseBool(s: string): Option<bool> {
    if s in ["1", "t", "T", "TRUE", "true", "True"] then Some(true)
    else if s in ["0", "f", "F", "FALSE", "false", "False"] then Some(false)
    else None
  }

  function AsInt(a: Arg): Option<int> {
    match a
    case Int(n) => Some(n)
    case Float(r) => Some(Truncated(r))
    case Text(s) => Decimal.Atoi(s)
    case _ => None
  }

  function AsBool(a: Arg): Option<bool> {
    match a
    case Boolean(b) => Some(b)
    case Text(s) => ParseBool(s)
    case Int(n) => Some(n != 0)
    case Float(r) => Some(r != 0.0)
    case _ => None
  }

  /** A scalar getter: the coerced argument, or the default. */
  function Scalar<T>(coerce: Arg -> Option<T>, args: Option<Args>, key: string, default: T): T {
    if args.Some? && key in args.value && coerce(args.value[key]).Some? then coerce(args.value[key]).value else default
  }

  /** The elements that coerce, coerced, in order. */
  function Coerced<T>(coerce: Arg -> Option<T>, items: seq<Arg>): seq<T> {
    if items == [] then [] else
    Coerced(coerce, items[..|items| - 1]) +
    (var v := coerce(items[|items| - 1]); if v.Some? then [v.value] else [])
  }

  method GetIntSlice(args: Option<Args>, key: string, default: seq<int>) returns (result: seq<int>)
    ensures result ==
      if args.None? || key !in args.value then default
      else match args.value[key]
           case Ints(v) => v
           case List(items) => Coerced(AsInt, items)
           case _ => default
  {
    if args.Some? && key in args.value {
      match args.value[key] {
        case Ints(v) => return v;
        case List(items) =>
          result := [];
          var i := 0;
          while i < |items|
            invariant 0 <= i <= |items| && result == Coerced(AsInt, items[..i])
          {
            assert items[..i + 1][..i] == items[..i];
            match items[i] {
              case Int(n) => result := result + [n];
              case Float(r) => result := result + [Truncated(r)];
              case Text(s) =>
                var n := Decimal.Atoi(s);
                if n.Some? {
                  result := result + [n.value];
                }
              case _ =>
            }
            i := i + 1;
          }
          assert items[..i] == items;
          return;
        case _ =>
      }
    }
    result := default;
  }

  method GetBoolSlice(args: Option<Args>, key: string, default: seq<bool>) returns (result: seq<bool>)
    ensures result ==
      if args.None? || key !in args.value then default
      else match args.value[key]
           case Bools(v) => v
           case List(items) => Coerced(AsBool, items)
           case _ => default
  {
    if args.Some? && key in args.value {
      match args.value[key] {
        case Bools(v) => return v;
        case List(items) =>
          result := [];
          var i := 0;
          while i < |items|
            invariant 0 <= i <= |items| && result == Coerced(AsBool, items[..i])
          {
            assert items[..i + 1][..i] == items[..i];
            match items[i] {
              case Boolean(b) => result := result + [b];
              case Text(s) =>
                var b := ParseBool(s);
                if b.Some? {
                  result := result + [b.value];
                }
              case Int(n) => result := result + [n != 0];
              case Float(r) => result := result + [r != 0.0];
              case _ =>
            }
            i := i + 1;
          }
          assert items[..i] == items;
          return;
        case _ =>
      }
    }
    result := default;
  }

  /** Slice getters distribute over concatenation. */
  lemma {:induction false} CoercedConcat<T>(coerce: Arg -> Option<T>, a: seq<Arg>, b: seq<Arg>)
    ensures Coerced(coerce, a + b) == Coerced(coerce, a) + Coerced(coerce, b)
  {
    if b == [] {
      assert a + b == a;
    } else {
      assert (a + b)[..|a + b| - 1] == a + b[..|b| - 1];
      CoercedConcat(coerce, a, b[..|b| - 1]);
    }
  }

  /** A one-element list gives [v] exactly when the scalar getter gives v under every
      default, and nothing exactly when it always gives the default. */
  lemma SliceOfOneExactly<T(!new)>(coerce: Arg -> Option<T>, a: Arg, key: string, v: T, w: T)
    requires v != w
    ensures Coerced(coerce, [a]) == [v] <==> forall d: T :: Scalar(coerce, Some(map[key := a]), key, d) == v
    ensures Coerced(coerce, [a]) == [] <==> forall d: T :: Scalar(coerce, Some(map[key := a]), key, d) == d
  {
    assert [a][..0] == [];
    assert Coerced(coerce, [a]) == if coerce(a).Some? then [coerce(a).value] else [];
    var args := Some(map[key := a]);
    assert coerce(a).None? ==> Scalar(coerce, args, key, w) == w && Scalar(coerce, args, key, v) == v;
    assert coerce(a).Some? ==> Scalar(coerce, args, key, w) == coerce(a).value == Scalar(coerce, args, key, v);
  }

  /** `n` is the whole part of `r`: between zero and `r`, and less than one away. */
  predicate WholePart(r: real, n: int) {
    if r >= 0.0 then 0 <= n && n as real <= r < n as real + 1.0
    else n <= 0 && n as real - 1.0 < r <= n as real
  }

  lemma TruncatedExactly(r: real, n: int)
    ensures Truncated(r) == n <==> WholePart(r, n)
  {
  }

  /** Which arguments are read as the integer `n`. */
  lemma AsIntExactly(a: Arg, n: int)
    ensures AsInt(a) == Some(n) <==>
      || a == Int(n)
      || (a.Float? && WholePart(a.r, n))
      || (a.Text? && Decimal.FitsInt64(n) && exists digits :: Decimal.Writes(a.s, n, digits))
  {
    if a.Float? {
      TruncatedExactly(a.r, n);
    } else if a.Text? {
      Decimal.AtoiExactly(a.s, n);
    }
  }

  /** Which arguments are read as the boolean `b`. */
  lemma AsBoolExactly(a: Arg, b: bool)
    ensures AsBool(a) == Some(b) <==>
      || a == Boolean(b)
      || (a.Text? &&
          a.s in if b then {"1", "t", "T", "TRUE", "true", "True"} else {"0", "f", "F", "FALSE", "false", "False"})
      || (a.Int? && b == (a.n != 0))
      || (a.Float? && b == (a.r != 0.0))
  {
  }

  /** A printed number is read back exactly when it has 64 bits. */
  lemma PrintedIntReadsBack(n: int, key: string, default: int)
    ensures AsInt(Text(Decimal.Itoa(n))) == if Decimal.FitsInt64(n) then Some(n) else None
    ensures Decimal.FitsInt64(n) ==> Scalar(AsInt, Some(map[key := Text(Decimal.Itoa(n))]), key, default) == n
  {
    Decimal.AtoiOfItoa(n);
  }
}
