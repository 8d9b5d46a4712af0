/**
 Memoised evaluation of a process graph (apps/orbit-openeo/src/executor.rs,
 `LocalExecutor::evaluate`) and its reference: a recursive meaning of nodes that knows
 neither a memo nor an order.
 */
module Executor {
  import opened Wrappers
  import opened Json
  import opened ArgumentWalk
  import opened ProcessGraph

  datatype GraphFault =
    | Rejected(error: GraphError)
    | UnknownNode(id: string)
    | NotYetEvaluated(target: string)
    | ResultNotVisited
    | ExpectedNumber
    | ExpectedStringId
    | DivideByZero

  datatype ExecError =
    | InvalidGraph(fault: GraphFault)
    | UnknownProcess(processId: string)
    | CollectionNotFound(id: string)
    | CatalogFailure(message: string)

  type Answer = Result<Value, ExecError>

  datatype CatalogAnswer =
    | Found(stacVersion: string, description: string)
    | Missing(id: string)
    | Broken(message: string)

  /** The catalog wired into the executor, if any, as the function it computes. */
  type Catalog = Option<string -> CatalogAnswer>

  // ------------------------------------------------------ one node in isolation

  /** A bare `{"from_node": "x"}`: the only form whose value is substituted. */
  predicate IsBareLink(v: Value) {
    IsLink(v) && |v.fields| == 1
  }

  function ResolveValue(v: Value, upstream: string -> Answer): Answer {
    if IsBareLink(v) then upstream(LinkTarget(v)) else Success(v)
  }

  function ResolveArguments(args: seq<Field<real>>, upstream: string -> Answer): Result<seq<Field<real>>, ExecError> {
    if args == [] then Success([])
    else
      var v :- ResolveValue(args[0].value, upstream);
      var rest :- ResolveArguments(args[1..], upstream);
      Success([Field(args[0].key, v)] + rest)
  }

  function NumberArg(args: seq<Field<real>>, key: string): Result<real, ExecError> {
    var v := Get(args, key);
    if v.Some? && v.value.Number? then Success(v.value.n) else Failure(InvalidGraph(ExpectedNumber))
  }

  function ArgOrNull(args: seq<Field<real>>, key: string): Value {
    var v := Get(args, key);
    if v.Some? then v.value else Null
  }

  function LoadCollection(id: Value, catalog: Catalog): Answer {
    if catalog.None? then
      Success(Object([Field("type", String("DataCube")), Field("collection", id)]))
    else if !id.String? then
      Failure(InvalidGraph(ExpectedStringId))
    else match catalog.value(id.s)
      case Found(version, description) =>
        Success(Object([Field("type", String("DataCube")), Field("collection", id), Field("stac_version", String(version))]
                       + if description == "" then [] else [Field("description", String(description))]))
      case Missing(missing) => Failure(CollectionNotFound(missing))
      case Broken(message) => Failure(CatalogFailure(message))
  }

  /** Runs one process on resolved arguments. */
  function Dispatch(processId: string, args: seq<Field<real>>, catalog: Catalog): Answer {
    if processId == "load_collection" then LoadCollection(ArgOrNull(args, "id"), catalog)
    else if processId == "save_result" then Success(ArgOrNull(args, "data"))
    else if processId in ["add", "subtract", "multiply", "divide"] then
      var x :- NumberArg(args, "x");
      var y :- NumberArg(args, "y");
      if processId == "add" then Success(Number(x + y))
      else if processId == "subtract" then Success(Number(x - y))
      else if processId == "multiply" then Success(Number(x * y))
      else if y == 0.0 then Failure(InvalidGraph(DivideByZero))
      else Success(Number(x / y))
    else Failure(UnknownProcess(processId))
  }

  /** A node's value when its upstream nodes have the answers `upstream`. */
  function RunNode(p: Process, upstream: string -> Answer, catalog: Catalog): Answer {
    var args :- ResolveArguments(p.arguments, upstream);
    Dispatch(p.processId, args, catalog)
  }

  // ------------------------------------------------------- the recursive meaning

  /** Meaning of `id`, never visiting a node outside `todo`. */
  function MeaningWithin(g: Graph, catalog: Catalog, id: string, todo: set<string>): Answer
    decreases todo
  {
    if id in todo && id in IdsOf(g) then
      RunNode(g[IndexOf(IdsOf(g), id)].process, (t: string) => MeaningWithin(g, catalog, t, todo - {id}), catalog)
    else Failure(InvalidGraph(UnknownNode(id)))
  }

  function AllIds(g: Graph): set<string> {
    set id | id in IdsOf(g)
  }

  /** The meaning of a node: its process applied to the meanings of the nodes it links to. */
  function Meaning(g: Graph, catalog: Catalog, id: string): Answer {
    MeaningWithin(g, catalog, id, AllIds(g))
  }

  function Meanings(g: Graph, catalog: Catalog): string -> Answer {
    (t: string) => Meaning(g, catalog, t)
  }

  predicate Upstream(p: Process, target: string) {
    exists a :: 0 <= a < |p.arguments| && IsBareLink(p.arguments[a].value) && LinkTarget(p.arguments[a].value) == target
  }

  /** `RunNode` depends on the answers of the nodes it links to and on nothing else. */
  lemma {:induction false} SameUpstreamSameArguments(args: seq<Field<real>>, f: string -> Answer, h: string -> Answer)
    requires forall a :: 0 <= a < |args| && IsBareLink(args[a].value) ==>
               f(LinkTarget(args[a].value)) == h(LinkTarget(args[a].value))
    ensures ResolveArguments(args, f) == ResolveArguments(args, h)
  {
    if args != [] {
      assert f.requires("") && h.requires("");
      SameUpstreamSameArguments(args[1..], f, h);
    }
  }

  lemma SameUpstreamSameRun(p: Process, f: string -> Answer, h: string -> Answer, catalog: Catalog)
    requires forall t :: Upstream(p, t) ==> f(t) == h(t)
    ensures RunNode(p, f, catalog) == RunNode(p, h, catalog)
  {
    forall a | 0 <= a < |p.arguments| && IsBareLink(p.arguments[a].value)
      ensures f(LinkTarget(p.arguments[a].value)) == h(LinkTarget(p.arguments[a].value))
    {
      assert Upstream(p, LinkTarget(p.arguments[a].value));
    }
    SameUpstreamSameArguments(p.arguments, f, h);
  }

  /** A substituted link is a dependency edge of the graph, so its target comes earlier in any order. */
  lemma UpstreamIsEarlier(g: Graph, order: seq<string>, k: nat, target: string) returns (m: nat)
    requires LinksResolve(g) && IsEvaluationOrder(g, order) && k < |order|
    requires order[k] in IdsOf(g) && Upstream(g[IndexOf(IdsOf(g), order[k])].process, target)
    ensures m < k && order[m] == target
  {
    var j := IndexOf(IdsOf(g), order[k]);
    var a :| 0 <= a < |Arguments(g, j)| && IsBareLink(Arguments(g, j)[a].value) && LinkTarget(Arguments(g, j)[a].value) == target;
    assert LinkAt(Arguments(g, j)[a].value, [], target);
    assert LinksTo(Arguments(g, j)[a].value, target);
    assert target in IdsOf(g) && target in order;
    var i := IndexOf(IdsOf(g), target);
    assert g[i].id == target && g[j].id == order[k];
    assert Feeds(g, i, j);
    m :| 0 <= m < |order| && order[m] == target;
  }

  /** The bound on visited nodes is immaterial once it covers everything earlier in some order. */
  lemma {:induction false} MeaningIgnoresBound(g: Graph, catalog: Catalog, order: seq<string>, k: nat, todo: set<string>)
    requires LinksResolve(g) && IsEvaluationOrder(g, order) && k < |order|
    requires forall m :: 0 <= m <= k ==> order[m] in todo
    ensures MeaningWithin(g, catalog, order[k], todo) == Meaning(g, catalog, order[k])
    decreases k
  {
    var id := order[k];
    assert id in order;
    var p := g[IndexOf(IdsOf(g), id)].process;
    var f := (t: string) => MeaningWithin(g, catalog, t, todo - {id});
    var h := (t: string) => MeaningWithin(g, catalog, t, AllIds(g) - {id});
    forall t | Upstream(p, t)
      ensures f(t) == h(t)
    {
      var m := UpstreamIsEarlier(g, order, k, t);
      MeaningIgnoresBound(g, catalog, order, m, todo - {id});
      assert forall x :: 0 <= x <= m ==> order[x] in order;
      MeaningIgnoresBound(g, catalog, order, m, AllIds(g) - {id});
    }
    SameUpstreamSameRun(p, f, h, catalog);
  }

  /**
   The defining equation of the meaning: on every graph whose links resolve and that has
   an evaluation order, a node means its process applied to the meanings of its links.
   */
  lemma MeaningEquation(g: Graph, catalog: Catalog, order: seq<string>, k: nat)
    requires LinksResolve(g) && IsEvaluationOrder(g, order) && k < |order| && order[k] in IdsOf(g)
    ensures Meaning(g, catalog, order[k])
         == RunNode(g[IndexOf(IdsOf(g), order[k])].process, Meanings(g, catalog), catalog)
  {
    var id := order[k];
    var p := g[IndexOf(IdsOf(g), id)].process;
    var h := (t: string) => MeaningWithin(g, catalog, t, AllIds(g) - {id});
    forall t | Upstream(p, t)
      ensures h(t) == Meanings(g, catalog)(t)
    {
      var m := UpstreamIsEarlier(g, order, k, t);
      assert forall x :: 0 <= x <= m ==> order[x] in order;
      MeaningIgnoresBound(g, catalog, order, m, AllIds(g) - {id});
    }
    SameUpstreamSameRun(p, h, Meanings(g, catalog), catalog);
  }

  // -------------------------------------------------------------- the memo loop

  function FromMemo(memo: map<string, Value>): string -> Answer {
    (t: string) => if t in memo then Success(memo[t]) else Failure(InvalidGraph(NotYetEvaluated(t)))
  }

  /** The memo holds exactly the first `k` nodes of the order, each with its meaning. */
  ghost predicate MemoInv(g: Graph, catalog: Catalog, order: seq<string>, k: nat, memo: map<string, Value>) {
    && k <= |order|
    && (forall m :: 0 <= m < k ==> order[m] in memo && Meaning(g, catalog, order[m]) == Success(memo[order[m]]))
    && (forall id :: id in memo ==> id in order[..k])
  }

  lemma MemoRunsLikeMeaning(g: Graph, catalog: Catalog, order: seq<string>, k: nat, memo: map<string, Value>)
    requires LinksResolve(g) && IsEvaluationOrder(g, order) && k < |order| && order[k] in IdsOf(g)
    requires MemoInv(g, catalog, order, k, memo)
    ensures RunNode(g[IndexOf(IdsOf(g), order[k])].process, FromMemo(memo), catalog) == Meaning(g, catalog, order[k])
  {
    var p := g[IndexOf(IdsOf(g), order[k])].process;
    forall t | Upstream(p, t)
      ensures FromMemo(memo)(t) == Meanings(g, catalog)(t)
    {
      var m := UpstreamIsEarlier(g, order, k, t);
    }
    SameUpstreamSameRun(p, FromMemo(memo), Meanings(g, catalog), catalog);
    MeaningEquation(g, catalog, order, k);
  }

  /** The first node of the order, from position `k` on, that has no value. */
  function FirstUndefined(g: Graph, catalog: Catalog, order: seq<string>, k: nat): Option<nat>
    requires k <= |order|
    decreases |order| - k
  {
    if k == |order| then None
    else if Meaning(g, catalog, order[k]).Failure? then Some(k)
    else FirstUndefined(g, catalog, order, k + 1)
  }

  /** What evaluation answers: the error of the first undefined node of the order, else the result's meaning. */
  function Outcome(g: Graph, catalog: Catalog, order: seq<string>, resultId: string): Answer {
    var bad := FirstUndefined(g, catalog, order, 0);
    if bad.Some? && bad.value < |order| then Meaning(g, catalog, order[bad.value]) else Meaning(g, catalog, resultId)
  }

  lemma {:induction false} FirstUndefinedIsFirst(g: Graph, catalog: Catalog, order: seq<string>, k: nat)
    requires k <= |order|
    ensures var b := FirstUndefined(g, catalog, order, k);
            && (b.Some? ==> && k <= b.value < |order| && Meaning(g, catalog, order[b.value]).Failure?
                            && forall m :: k <= m < b.value ==> Meaning(g, catalog, order[m]).Success?)
            && (b.None? ==> forall m :: k <= m < |order| ==> Meaning(g, catalog, order[m]).Success?)
    decreases |order| - k
  {
    hide Meaning;
    if k < |order| && Meaning(g, catalog, order[k]).Success? {
      FirstUndefinedIsFirst(g, catalog, order, k + 1);
    }
  }

  lemma MemoGrows(g: Graph, catalog: Catalog, order: seq<string>, k: nat, memo: map<string, Value>, v: Value)
    requires MemoInv(g, catalog, order, k, memo) && k < |order| && Distinct(order)
    requires Meaning(g, catalog, order[k]) == Success(v)
    ensures MemoInv(g, catalog, order, k + 1, memo[order[k] := v])
  {
    assert order[..k + 1] == order[..k] + [order[k]];
  }

  lemma OutcomeFacts(g: Graph, catalog: Catalog, order: seq<string>, resultId: string)
    requires IsEvaluationOrder(g, order) && resultId in IdsOf(g)
    ensures forall k :: 0 <= k < |order| && (forall m :: 0 <= m < k ==> Meaning(g, catalog, order[m]).Success?)
                        && Meaning(g, catalog, order[k]).Failure?
                        ==> Outcome(g, catalog, order, resultId) == Meaning(g, catalog, order[k])
    ensures Outcome(g, catalog, order, resultId).Success? <==> forall id :: id in IdsOf(g) ==> Meaning(g, catalog, id).Success?
    ensures Outcome(g, catalog, order, resultId).Success? ==>
              Outcome(g, catalog, order, resultId) == Meaning(g, catalog, resultId)
  {
    hide Meaning, MeaningWithin, FirstUndefined;
    FirstUndefinedIsFirst(g, catalog, order, 0);
    assert forall id :: id in IdsOf(g) <==> id in order;
    if FirstUndefined(g, catalog, order, 0).Some? {
      assert order[FirstUndefined(g, catalog, order, 0).value] in order;
    }
  }

  /** Walks the nodes in `order`, filling the memo. */
  method EvaluateInOrder(g: Graph, catalog: Catalog, order: seq<string>, resultId: string) returns (r: Answer)
    requires LinksResolve(g) && IsEvaluationOrder(g, order) && resultId in IdsOf(g)
    ensures r == Outcome(g, catalog, order, resultId)
    ensures r.Success? <==> forall id :: id in IdsOf(g) ==> Meaning(g, catalog, id).Success?
    ensures r.Success? ==> r == Meaning(g, catalog, resultId)
  {
    OutcomeFacts(g, catalog, order, resultId);
    var memo: map<string, Value> := map[];
    for k := 0 to |order|
      invariant MemoInv(g, catalog, order, k, memo)
    {
      var nodeId := order[k];
      assert nodeId in order;
      if nodeId !in IdsOf(g) {
        return Failure(InvalidGraph(UnknownNode(nodeId)));
      }
      MemoRunsLikeMeaning(g, catalog, order, k, memo);
      var out := RunNode(g[IndexOf(IdsOf(g), nodeId)].process, FromMemo(memo), catalog);
      if out.Failure? {
        return out;
      }
      MemoGrows(g, catalog, order, k, memo, out.value);
      memo := memo[nodeId := out.value];
    }
    MemoIsComplete(g, catalog, order, memo);
    if resultId !in memo {
      return Failure(InvalidGraph(ResultNotVisited));
    }
    return Success(memo[resultId]);
  }

  lemma MemoIsComplete(g: Graph, catalog: Catalog, order: seq<string>, memo: map<string, Value>)
    requires IsEvaluationOrder(g, order) && MemoInv(g, catalog, order, |order|, memo)
    ensures forall id :: id in IdsOf(g) ==> id in memo && Meaning(g, catalog, id) == Success(memo[id])
  {
    forall id | id in IdsOf(g)
      ensures id in memo && Meaning(g, catalog, id) == Success(memo[id])
    {
      assert id in order;
      var m :| 0 <= m < |order| && order[m] == id;
    }
  }

  /** Errors that only a broken order, memo or analysis could cause. */
  predicate IsInternalFault(e: ExecError) {
    e.InvalidGraph? && (e.fault.UnknownNode? || e.fault.NotYetEvaluated? || e.fault.ResultNotVisited?)
  }

  lemma {:induction false} ArgumentsPassOnErrors(args: seq<Field<real>>, f: string -> Answer)
    requires ResolveArguments(args, f).Failure?
    ensures exists a :: && 0 <= a < |args| && IsBareLink(args[a].value)
                        && f(LinkTarget(args[a].value)) == Failure(ResolveArguments(args, f).error)
  {
    if ResolveValue(args[0].value, f).Success? {
      ArgumentsPassOnErrors(args[1..], f);
      var a :| && 0 <= a < |args[1..]| && IsBareLink(args[1..][a].value)
               && f(LinkTarget(args[1..][a].value)) == Failure(ResolveArguments(args[1..], f).error);
      assert args[a + 1] == args[1..][a];
    }
  }

  lemma OrderedIdIsNode(g: Graph, order: seq<string>, k: nat)
    requires IsEvaluationOrder(g, order) && k < |order|
    ensures order[k] in IdsOf(g)
  {
    assert order[k] in order;
  }

  lemma DispatchHasNoInternalFault()
    ensures forall processId, args, catalog ::
              Dispatch(processId, args, catalog).Failure? ==> !IsInternalFault(Dispatch(processId, args, catalog).error)
  {
  }

  lemma {:induction false} MeaningHasNoInternalFault(g: Graph, catalog: Catalog, order: seq<string>, k: nat)
    requires LinksResolve(g) && IsEvaluationOrder(g, order) && k < |order|
    ensures Meaning(g, catalog, order[k]).Failure? ==> !IsInternalFault(Meaning(g, catalog, order[k]).error)
    decreases k
  {
    hide Meaning, IsEvaluationOrder, LinksResolve, Get, LoadCollection;
    OrderedIdIsNode(g, order, k);
    MeaningEquation(g, catalog, order, k);
    DispatchHasNoInternalFault();
    hide Dispatch;
    var p := g[IndexOf(IdsOf(g), order[k])].process;
    var f := Meanings(g, catalog);
    if ResolveArguments(p.arguments, f).Failure? {
      ArgumentsPassOnErrors(p.arguments, f);
      var a :| && 0 <= a < |p.arguments| && IsBareLink(p.arguments[a].value)
               && f(LinkTarget(p.arguments[a].value)) == Failure(ResolveArguments(p.arguments, f).error);
      var t := LinkTarget(p.arguments[a].value);
      assert Upstream(p, t);
      var m := UpstreamIsEarlier(g, order, k, t);
      MeaningHasNoInternalFault(g, catalog, order, m);
    }
  }

  // ------------------------------------------------ what evaluation means in numbers

  datatype ArithOp = Plus | Minus | Times | Over

  /** The openEO process of an operation. */
  function Name(op: ArithOp): string {
    match op
    case Plus => "add"
    case Minus => "subtract"
    case Times => "multiply"
    case Over => "divide"
  }

  datatype Expr = Const(r: real) | Calc(op: ArithOp, left: Expr, right: Expr)

  function Apply(op: ArithOp, x: real, y: real): Option<real> {
    match op
    case Plus => Some(x + y)
    case Minus => Some(x - y)
    case Times => Some(x * y)
    case Over => if y == 0.0 then None else Some(x / y)
  }

  /** The number that an expression stands for; none where a divisor is zero. */
  function NumberOf(e: Expr): Option<real> {
    match e
    case Const(r) => Some(r)
    case Calc(op, left, right) =>
      var x, y := NumberOf(left), NumberOf(right);
      if x.Some? && y.Some? then Apply(op, x.value, y.value) else None
  }

  function AnswerOf(n: Option<real>): Answer {
    if n.Some? then Success(Number(n.value)) else Failure(InvalidGraph(DivideByZero))
  }

  predicate IsOperand(v: Value) {
    v.Number? || IsBareLink(v)
  }

  /** An operation whose operands are numbers or links; other arguments, if any, link to nothing. */
  predicate IsArithmeticNode(p: Process) {
    && (exists op :: p.processId == Name(op))
    && Distinct(Keys(p.arguments))
    && Get(p.arguments, "x").Some? && IsOperand(Get(p.arguments, "x").value)
    && Get(p.arguments, "y").Some? && IsOperand(Get(p.arguments, "y").value)
    && forall a :: 0 <= a < |p.arguments| && IsBareLink(p.arguments[a].value) ==> p.arguments[a].key in ["x", "y"]
  }

  predicate IsArithmetic(g: Graph) {
    forall j :: 0 <= j < |g| ==> IsArithmeticNode(g[j].process)
  }

  /** The value `v` of an argument stands for the expression. */
  ghost predicate OperandIs(g: Graph, v: Value, e: Expr)
    decreases e, 1
  {
    match e
    case Const(r) => v == Number(r)
    case Calc(_, _, _) => IsBareLink(v) && NodeIs(g, LinkTarget(v), e)
  }

  /** The node `id` stands for the expression. */
  ghost predicate NodeIs(g: Graph, id: string, e: Expr)
    decreases e, 0
  {
    && e.Calc? && id in IdsOf(g)
    && var p := g[IndexOf(IdsOf(g), id)].process;
       && IsArithmeticNode(p) && p.processId == Name(e.op)
       && OperandIs(g, Get(p.arguments, "x").value, e.left)
       && OperandIs(g, Get(p.arguments, "y").value, e.right)
  }

  lemma {:induction false} ResolvedOrFailed(args: seq<Field<real>>, f: string -> Answer, key: string)
    ensures var r := ResolveArguments(args, f);
            r.Success? ==>
              && (Get(args, key).None? ==> Get(r.value, key).None?)
              && (Get(args, key).Some? ==>
                    && Get(r.value, key).Some?
                    && ResolveValue(Get(args, key).value, f) == Success(Get(r.value, key).value))
    ensures (forall a :: 0 <= a < |args| ==> ResolveValue(args[a].value, f).Success?) ==> ResolveArguments(args, f).Success?
  {
    hide ResolveValue;
    if args != [] {
      ResolvedOrFailed(args[1..], f, key);
      assert forall a :: 0 <= a < |args[1..]| ==> args[1..][a] == args[a + 1];
      if ResolveArguments(args, f).Success? {
        var v, rest := ResolveValue(args[0].value, f).value, ResolveArguments(args[1..], f).value;
        GetFirst(Field(args[0].key, v), rest, key);
        GetFirst(args[0], args[1..], key);
        assert args == [args[0]] + args[1..];
      }
    }
  }

  lemma GetFirst(first: Field<real>, rest: seq<Field<real>>, key: string)
    ensures Get([first] + rest, key) == if first.key == key then Some(first.value) else Get(rest, key)
  {
    assert ([first] + rest)[1..] == rest;
  }

  lemma {:induction false} GetOfDistinct(args: seq<Field<real>>, a: nat)
    requires a < |args| && Distinct(Keys(args))
    ensures Get(args, args[a].key) == Some(args[a].value)
  {
    if a > 0 {
      assert Keys(args)[0] != Keys(args)[a];
      assert Keys(args[1..]) == Keys(args)[1..];
      GetOfDistinct(args[1..], a - 1);
    }
  }

  /** An operation on two numbers answers their sum, difference, product or quotient, or divides by zero. */
  lemma OperationOnNumbers(op: ArithOp, args: seq<Field<real>>, x: real, y: real, catalog: Catalog)
    requires Get(args, "x") == Some(Number(x)) && Get(args, "y") == Some(Number(y))
    ensures Dispatch(Name(op), args, catalog) == AnswerOf(Apply(op, x, y))
  {
    hide Get, LoadCollection;
    assert NumberArg(args, "x") == Success(x) && NumberArg(args, "y") == Success(y);
    hide NumberArg;
    match op
    case Plus => assert Dispatch("add", args, catalog) == Success(Number(x + y));
    case Minus => assert Dispatch("subtract", args, catalog) == Success(Number(x - y));
    case Times =>
      MultiplyAnswers(args, catalog);
      var product := NumberArg(args, "x").Extract() * NumberArg(args, "y").Extract();
      SameFactors(NumberArg(args, "x").Extract(), x, NumberArg(args, "y").Extract(), y);
      TimesAnswers(x, y, product);
    case Over =>
      assert y == 0.0 ==> Dispatch("divide", args, catalog) == Failure(InvalidGraph(DivideByZero));
      assert y != 0.0 ==> Dispatch("divide", args, catalog) == Success(Number(x / y));
  }

  lemma MultiplyAnswers(args: seq<Field<real>>, catalog: Catalog)
    requires NumberArg(args, "x").Success? && NumberArg(args, "y").Success?
    ensures Dispatch("multiply", args, catalog) == Success(Number(NumberArg(args, "x").Extract() * NumberArg(args, "y").Extract()))
  {
    hide NumberArg, LoadCollection;
    assert "multiply"[0] != "subtract"[0];
    assert "multiply" in ["add", "subtract", "multiply", "divide"];
  }

  lemma TimesAnswers(x: real, y: real, product: real)
    requires product == x * y
    ensures AnswerOf(Apply(Times, x, y)) == Success(Number(product))
  {
    assert Apply(Times, x, y).value == x * y;
  }

  lemma SameFactors(a: real, b: real, c: real, d: real)
    requires a == b && c == d
    ensures a * c == b * d
  {
  }

  lemma LinkResolves(v: Value, f: string -> Answer)
    requires IsBareLink(v)
    ensures ResolveValue(v, f) == f(LinkTarget(v))
  {
  }

  /** A node whose operands have the answers of two numbers has that of the operation. */
  lemma OperationRuns(p: Process, op: ArithOp, f: string -> Answer, x: Option<real>, y: Option<real>, catalog: Catalog)
    requires IsArithmeticNode(p) && p.processId == Name(op)
    requires ResolveValue(Get(p.arguments, "x").value, f) == AnswerOf(x)
    requires ResolveValue(Get(p.arguments, "y").value, f) == AnswerOf(y)
    ensures RunNode(p, f, catalog) == AnswerOf(if x.Some? && y.Some? then Apply(op, x.value, y.value) else None)
  {
    hide Dispatch, Get, Apply, Name, ResolveArguments, ResolveValue;
    ResolvedOrFailed(p.arguments, f, "x");
    ResolvedOrFailed(p.arguments, f, "y");
    var r := ResolveArguments(p.arguments, f);
    if r.Failure? {
      ArgumentsPassOnErrors(p.arguments, f);
      var a :| 0 <= a < |p.arguments| && IsBareLink(p.arguments[a].value) && f(LinkTarget(p.arguments[a].value)) == Failure(r.error);
      GetOfDistinct(p.arguments, a);
      LinkResolves(p.arguments[a].value, f);
    } else {
      OperationOnNumbers(op, r.value, x.value, y.value, catalog);
    }
  }

  /** A node that stands for an expression means its number. */
  lemma {:induction false} ExpressionMeaning(g: Graph, catalog: Catalog, order: seq<string>, id: string, e: Expr)
    requires LinksResolve(g) && IsEvaluationOrder(g, order) && NodeIs(g, id, e)
    ensures Meaning(g, catalog, id) == AnswerOf(NumberOf(e))
    decreases e, 0
  {
    hide Meaning, IsArithmeticNode, RunNode, Apply, Dispatch, LinksResolve;
    var p := g[IndexOf(IdsOf(g), id)].process;
    assert id in order;
    var k :| 0 <= k < |order| && order[k] == id;
    MeaningEquation(g, catalog, order, k);
    assert Get(p.arguments, "x").Some? && Get(p.arguments, "y").Some? by {
      ArithmeticHasOperands(p);
    }
    OperandMeaning(g, catalog, order, Get(p.arguments, "x").value, e.left);
    OperandMeaning(g, catalog, order, Get(p.arguments, "y").value, e.right);
    hide OperandIs, IsEvaluationOrder;
    OperationRuns(p, e.op, Meanings(g, catalog), NumberOf(e.left), NumberOf(e.right), catalog);
  }

  lemma ArithmeticHasOperands(p: Process)
    requires IsArithmeticNode(p)
    ensures Get(p.arguments, "x").Some? && Get(p.arguments, "y").Some?
  {
  }

  lemma {:induction false} OperandMeaning(g: Graph, catalog: Catalog, order: seq<string>, v: Value, e: Expr)
    requires LinksResolve(g) && IsEvaluationOrder(g, order) && OperandIs(g, v, e)
    ensures ResolveValue(v, Meanings(g, catalog)) == AnswerOf(NumberOf(e))
    decreases e, 1
  {
    hide Meaning, LinksResolve, IsEvaluationOrder, Apply;
    if e.Calc? {
      ExpressionMeaning(g, catalog, order, LinkTarget(v), e);
    }
  }

  /** In an accepted arithmetic graph every node stands for an expression. */
  lemma {:induction false} EveryNodeIsExpression(g: Graph, order: seq<string>, k: nat) returns (e: Expr)
    requires LinksResolve(g) && IsEvaluationOrder(g, order) && IsArithmetic(g) && k < |order|
    ensures NodeIs(g, order[k], e)
    decreases k, 1
  {
    OrderedIdIsNode(g, order, k);
    var j := IndexOf(IdsOf(g), order[k]);
    var p := g[j].process;
    assert IsArithmeticNode(p);
    hide IsEvaluationOrder, LinksResolve;
    var op :| p.processId == Name(op);
    var left := OperandExpression(g, order, k, "x");
    var right := OperandExpression(g, order, k, "y");
    e := Calc(op, left, right);
  }

  lemma {:induction false} OperandExpression(g: Graph, order: seq<string>, k: nat, key: string) returns (e: Expr)
    requires LinksResolve(g) && IsEvaluationOrder(g, order) && IsArithmetic(g) && k < |order| && key in ["x", "y"]
    requires order[k] in IdsOf(g)
    ensures var p := g[IndexOf(IdsOf(g), order[k])].process;
            Get(p.arguments, key).Some? && OperandIs(g, Get(p.arguments, key).value, e)
    decreases k, 0
  {
    var p := g[IndexOf(IdsOf(g), order[k])].process;
    assert IsArithmeticNode(p);
    var v := Get(p.arguments, key).value;
    if v.Number? {
      e := Const(v.n);
    } else {
      var a :| 0 <= a < |p.arguments| && p.arguments[a] == Field(key, v);
      assert Upstream(p, LinkTarget(v));
      var m := UpstreamIsEarlier(g, order, k, LinkTarget(v));
      e := EveryNodeIsExpression(g, order, m);
    }
  }

  /** No node of the graph stands for an expression that divides by zero. */
  ghost predicate NeverDividesByZero(g: Graph) {
    forall id, e :: NodeIs(g, id, e) ==> NumberOf(e).Some?
  }

  /** What evaluating an arithmetic graph answers: its number, or a division by zero at any node. */
  ghost predicate AnswersInNumbers(g: Graph, r: Answer) {
    if NeverDividesByZero(g)
    then exists i, e :: && 0 <= i < |g| && IsOnlyResult(g, i) && NodeIs(g, g[i].id, e)
                        && NumberOf(e).Some? && r == Success(Number(NumberOf(e).value))
    else r == Failure(InvalidGraph(DivideByZero))
  }

  lemma ArithmeticAnswer(g: Graph, catalog: Catalog, order: seq<string>, r: Answer, i: nat)
    requires LinksResolve(g) && IsEvaluationOrder(g, order) && IsArithmetic(g) && i < |g| && IsOnlyResult(g, i)
    requires r.Success? <==> forall id :: id in IdsOf(g) ==> Meaning(g, catalog, id).Success?
    requires r.Success? ==> r == Meaning(g, catalog, g[i].id)
    requires r.Failure? ==> exists id :: id in IdsOf(g) && r == Meaning(g, catalog, id)
    ensures AnswersInNumbers(g, r)
  {
    hide Meaning, LinksResolve, IsEvaluationOrder, NodeIs, IsArithmetic, NumberOf;
    forall id | id in IdsOf(g)
      ensures exists e :: NodeIs(g, id, e) && Meaning(g, catalog, id) == AnswerOf(NumberOf(e))
    {
      var e := NodeHasExpression(g, order, id);
      ExpressionMeaning(g, catalog, order, id, e);
    }
    forall id, e | NodeIs(g, id, e)
      ensures id in IdsOf(g) && Meaning(g, catalog, id) == AnswerOf(NumberOf(e))
    {
      ExpressionMeaning(g, catalog, order, id, e);
      StandsInGraph(g, id, e);
    }
    assert IdsOf(g)[i] == g[i].id && g[i].id in IdsOf(g);
  }

  lemma StandsInGraph(g: Graph, id: string, e: Expr)
    requires NodeIs(g, id, e)
    ensures id in IdsOf(g)
  {
  }

  lemma NodeHasExpression(g: Graph, order: seq<string>, id: string) returns (e: Expr)
    requires LinksResolve(g) && IsEvaluationOrder(g, order) && IsArithmetic(g) && id in IdsOf(g)
    ensures NodeIs(g, id, e)
  {
    assert id in order;
    var k :| 0 <= k < |order| && order[k] == id;
    hide IsEvaluationOrder;
    e := EveryNodeIsExpression(g, order, k);
  }

  /** An argument is replaced by an answer if it is an object with nothing but a string under `from_node`, and stands otherwise. */
  lemma OnlyBareLinksAreReplaced(v: Value, f: string -> Answer)
    ensures forall target :: v == Object([Field("from_node", String(target))]) ==> ResolveValue(v, f) == f(target)
    ensures (forall target :: v != Object([Field("from_node", String(target))])) ==> ResolveValue(v, f) == Success(v)
  {
    if IsBareLink(v) {
      assert v.fields[0] == Field("from_node", String(LinkTarget(v)));
      assert v.fields == [v.fields[0]];
    }
  }

  // ----------------------------------------------------------- the other processes

  predicate LinksNowhere(args: seq<Field<real>>, but: string) {
    forall a :: 0 <= a < |args| && args[a].key != but ==> !IsBareLink(args[a].value)
  }

  /** Saving hands on the meaning of `data`: a value as it is, null if absent, a link's meaning with its errors. */
  lemma SaveResultHandsOn(p: Process, f: string -> Answer, catalog: Catalog)
    requires p.processId == "save_result" && Distinct(Keys(p.arguments)) && LinksNowhere(p.arguments, "data")
    ensures RunNode(p, f, catalog)
            == if Get(p.arguments, "data").None? then Success(Null) else ResolveValue(Get(p.arguments, "data").value, f)
  {
    OnlyLinkDecides(p, f, "data");
    hide ResolveArguments, ResolveValue;
  }

  /** Only the argument `key` may link: the others stand, so it decides whether all resolve. */
  lemma OnlyLinkDecides(p: Process, f: string -> Answer, key: string)
    requires Distinct(Keys(p.arguments)) && LinksNowhere(p.arguments, key)
    ensures var r := ResolveArguments(p.arguments, f);
            && (Get(p.arguments, key).None? ==> r.Success? && Get(r.value, key).None?)
            && (Get(p.arguments, key).Some? ==>
                  var v := ResolveValue(Get(p.arguments, key).value, f);
                  if v.Success? then r.Success? && Get(r.value, key) == Some(v.value) else r == Failure(v.error))
  {
    hide Get;
    ResolvedOrFailed(p.arguments, f, key);
    var r := ResolveArguments(p.arguments, f);
    if r.Failure? {
      ArgumentsPassOnErrors(p.arguments, f);
      var a :| 0 <= a < |p.arguments| && IsBareLink(p.arguments[a].value) && f(LinkTarget(p.arguments[a].value)) == Failure(r.error);
      GetOfDistinct(p.arguments, a);
    }
  }

  /** So a node that saves what another computes means what that one means, number, cube or error. */
  lemma SaveResultMeaning(g: Graph, catalog: Catalog, order: seq<string>, id: string, target: string)
    requires LinksResolve(g) && IsEvaluationOrder(g, order) && id in IdsOf(g)
    requires var p := g[IndexOf(IdsOf(g), id)].process;
             && p.processId == "save_result" && Distinct(Keys(p.arguments)) && LinksNowhere(p.arguments, "data")
             && Get(p.arguments, "data").Some? && IsBareLink(Get(p.arguments, "data").value)
             && LinkTarget(Get(p.arguments, "data").value) == target
    ensures Meaning(g, catalog, id) == Meaning(g, catalog, target)
  {
    hide Meaning, RunNode, LinksResolve, Get, LinksNowhere;
    assert id in order;
    var k :| 0 <= k < |order| && order[k] == id;
    MeaningEquation(g, catalog, order, k);
    SaveResultHandsOn(g[IndexOf(IdsOf(g), id)].process, Meanings(g, catalog), catalog);
  }

  /** The value of an argument whose links have answers; null if absent. */
  function ValueOf(args: seq<Field<real>>, f: string -> Answer, key: string): Value
    requires Get(args, key).Some? ==> ResolveValue(Get(args, key).value, f).Success?
  {
    if Get(args, key).None? then Null else ResolveValue(Get(args, key).value, f).value
  }

  predicate AllResolve(args: seq<Field<real>>, f: string -> Answer) {
    forall a :: 0 <= a < |args| ==> ResolveValue(args[a].value, f).Success?
  }

  lemma ResolvedValue(args: seq<Field<real>>, f: string -> Answer, key: string)
    requires AllResolve(args, f)
    ensures ResolveArguments(args, f).Success?
    ensures Get(args, key).Some? ==> ResolveValue(Get(args, key).value, f).Success?
    ensures ArgOrNull(ResolveArguments(args, f).value, key) == ValueOf(args, f, key)
  {
    ResolvedOrFailed(args, f, key);
    hide ResolveArguments, ResolveValue;
  }

  /** Loading a collection answers a data cube that names it, with what the catalog knows of it, or the catalog's error. */
  lemma LoadCollectionNamesTheCube(p: Process, f: string -> Answer, catalog: Catalog)
    requires p.processId == "load_collection" && AllResolve(p.arguments, f)
    ensures Get(p.arguments, "id").Some? ==> ResolveValue(Get(p.arguments, "id").value, f).Success?
    ensures CubeIs(RunNode(p, f, catalog), ValueOf(p.arguments, f, "id"), catalog)
  {
    ResolvedValue(p.arguments, f, "id");
    hide ResolveArguments, ResolveValue, ArgOrNull, ValueOf, LoadCollection, CubeIs, AllResolve;
    CubeOf(ValueOf(p.arguments, f, "id"), catalog);
  }

  predicate NamesCube(v: Value, id: Value) {
    && v.Object?
    && Get(v.fields, "type") == Some(String("DataCube"))
    && Get(v.fields, "collection") == Some(id)
  }

  /** The answer is a data cube for the collection, as far as the catalog, if there is one, knows it. */
  predicate CubeIs(r: Answer, id: Value, catalog: Catalog) {
    if catalog.None? then
      r.Success? && NamesCube(r.value, id) && Get(r.value.fields, "stac_version").None?
    else if !id.String? then
      r == Failure(InvalidGraph(ExpectedStringId))
    else match catalog.value(id.s)
      case Found(version, description) =>
        && r.Success? && NamesCube(r.value, id)
        && Get(r.value.fields, "stac_version") == Some(String(version))
        && Get(r.value.fields, "description") == if description == "" then None else Some(String(description))
      case Missing(missing) => r == Failure(CollectionNotFound(missing))
      case Broken(message) => r == Failure(CatalogFailure(message))
  }

  lemma CubeOf(id: Value, catalog: Catalog)
    ensures CubeIs(LoadCollection(id, catalog), id, catalog)
  {
    hide Get;
    TwoFields(Field("type", String("DataCube")), Field("collection", id), []);
    if catalog.Some? && id.String? && catalog.value(id.s).Found? {
      var found := catalog.value(id.s);
      var version := Field("stac_version", String(found.stacVersion));
      var rest := if found.description == "" then [] else [Field("description", String(found.description))];
      TwoFields(Field("type", String("DataCube")), Field("collection", id), [version] + rest);
      assert [Field("type", String("DataCube")), Field("collection", id), version] + rest
          == [Field("type", String("DataCube")), Field("collection", id)] + ([version] + rest);
      GetFirst(version, rest, "stac_version");
      GetFirst(version, rest, "description");
      GetOnly(rest, found.description);
    }
    GetNothing("stac_version");
  }

  lemma GetNothing(key: string)
    ensures Get<real>([], key) == None
  {
  }

  lemma GetOnly(rest: seq<Field<real>>, description: string)
    requires rest == if description == "" then [] else [Field("description", String(description))]
    ensures Get(rest, "description") == if description == "" then None else Some(String(description))
  {
  }

  lemma TwoFields(a: Field<real>, b: Field<real>, rest: seq<Field<real>>)
    requires a.key == "type" && b.key == "collection"
    ensures Get([a, b] + rest, "type") == Some(a.value) && Get([a, b] + rest, "collection") == Some(b.value)
    ensures Get([a, b] + rest, "stac_version") == Get(rest, "stac_version")
    ensures Get([a, b] + rest, "description") == Get(rest, "description")
    ensures rest == [] ==> [a, b] + rest == [a, b]
  {
    assert [a, b] + rest == [a] + ([b] + rest);
    forall key
      ensures Get([a, b] + rest, key) == if key == "type" then Some(a.value) else if key == "collection" then Some(b.value) else Get(rest, key)
    {
      GetFirst(a, [b] + rest, key);
      GetFirst(b, rest, key);
    }
    hide Get;
  }

  /** A process that is none of the seven is unknown, once its arguments have values. */
  lemma OtherProcessesAreUnknown(p: Process, f: string -> Answer, catalog: Catalog)
    requires p.processId !in ["load_collection", "save_result", "add", "subtract", "multiply", "divide"]
    requires AllResolve(p.arguments, f)
    ensures RunNode(p, f, catalog) == Failure(UnknownProcess(p.processId))
  {
    ResolvedValue(p.arguments, f, "");
    hide ResolveArguments, ResolveValue, AllResolve, LoadCollection;
    assert p.processId !in ["add", "subtract", "multiply", "divide"];
  }

  lemma FailureIsSomeMeaning(g: Graph, catalog: Catalog, order: seq<string>, resultId: string)
    requires LinksResolve(g) && IsEvaluationOrder(g, order) && resultId in IdsOf(g)
    requires Outcome(g, catalog, order, resultId).Failure?
    ensures exists id :: id in IdsOf(g) && Outcome(g, catalog, order, resultId) == Meaning(g, catalog, id)
    ensures !IsInternalFault(Outcome(g, catalog, order, resultId).error)
  {
    hide Meaning, LinksResolve, FirstUndefined;
    FirstUndefinedIsFirst(g, catalog, order, 0);
    forall id | id in IdsOf(g)
      ensures Meaning(g, catalog, id).Failure? ==> !IsInternalFault(Meaning(g, catalog, id).error)
    {
      assert id in order;
      var k :| 0 <= k < |order| && order[k] == id;
      MeaningHasNoInternalFault(g, catalog, order, k);
    }
    forall k | 0 <= k < |order|
      ensures order[k] in IdsOf(g)
    {
      OrderedIdIsNode(g, order, k);
    }
  }

  method Evaluate(g: Graph, catalog: Catalog) returns (r: Answer)
    ensures !Acceptable(g) ==> BuildOutcome(g).Failure? && r == Failure(InvalidGraph(Rejected(BuildOutcome(g).error)))
    ensures Acceptable(g) ==>
              (r.Success? <==> forall id :: id in IdsOf(g) ==> Meaning(g, catalog, id).Success?)
    ensures r.Success? ==> exists i :: 0 <= i < |g| && IsOnlyResult(g, i) && r == Meaning(g, catalog, g[i].id)
    ensures r.Failure? ==> !IsInternalFault(r.error)
    ensures Acceptable(g) && r.Failure? ==> exists id :: id in IdsOf(g) && r == Meaning(g, catalog, id)
    ensures Acceptable(g) && IsArithmetic(g) ==> AnswersInNumbers(g, r)
  {
    hide Meaning, Outcome, IsArithmetic, AnswersInNumbers, IsEvaluationOrder, LinksResolve;
    var analysis := Build(g);
    if analysis.Failure? {
      return Failure(InvalidGraph(Rejected(analysis.error)));
    }
    var a := analysis.value;
    var order := EvaluationOrder(a, g);
    ghost var i :| 0 <= i < |g| && IsOnlyResult(g, i) && a.resultId == g[i].id;
    assert IdsOf(g)[i] == g[i].id;
    r := EvaluateInOrder(g, catalog, order, a.resultId);
    if r.Failure? {
      FailureIsSomeMeaning(g, catalog, order, a.resultId);
    }
    if IsArithmetic(g) {
      ArithmeticAnswer(g, catalog, order, r, i);
    }
  }
}
