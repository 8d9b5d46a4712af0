/**
 Building and analysing an openEO process graph
 (apps/orbit-openeo/src/process_graph.rs, `ProcessGraphAnalysis`).

 `Build` accepts a graph exactly when it is `Acceptable`, a condition stated on the JSON
 arguments themselves; the evaluation order of an accepted graph is topological.
 */
module ProcessGraph {
  import opened Wrappers
  import opened Json
  import opened ArgumentWalk
  import opened TopoSort

  datatype Process = Process(processId: string, arguments: seq<Field<real>>, result: Option<bool>)
  datatype Node = Node(id: string, process: Process)

  /** The nodes in key order, each key once. */
  type Graph = g: seq<Node> | Distinct(IdsOf(g))

  datatype GraphError =
    | Cycle(id: string)
    | UnknownNodeReference(target: string)
    | AmbiguousResult(count: nat)
    | DepthExceeded(limit: nat)

  datatype Analysis = Analysis(ids: seq<string>, edges: seq<Edge>, resultId: string)

  function IdsOf(g: seq<Node>): seq<string> {
    seq(|g|, i requires 0 <= i < |g| => g[i].id)
  }

  function Arguments(g: Graph, j: nat): seq<Field<real>>
    requires j < |g|
  {
    g[j].process.arguments
  }

  function ResultNodes(g: seq<Node>): seq<string> {
    if g == [] then []
    else (if g[0].process.result == Some(true) then [g[0].id] else []) + ResultNodes(g[1..])
  }

  // ---------------------------------------------------------------- reference

  /** Some argument links to `id`. */
  ghost predicate SomeLink(args: seq<Field<real>>, id: string) {
    exists a :: 0 <= a < |args| && LinksTo(args[a].value, id)
  }

  /** Node `j` has an argument with an outer-namespace link to node `i`. */
  ghost predicate Feeds(g: Graph, i: nat, j: nat) {
    i < |g| && j < |g| && SomeLink(Arguments(g, j), g[i].id)
  }

  ghost predicate LinksResolve(g: Graph) {
    forall j, a, id :: 0 <= j < |g| && 0 <= a < |Arguments(g, j)| && LinksTo(Arguments(g, j)[a].value, id)
                       ==> id in IdsOf(g)
  }

  ghost predicate WithinDepth(g: Graph) {
    forall j, a :: 0 <= j < |g| && 0 <= a < |Arguments(g, j)| ==> !NestedTooDeep(Arguments(g, j)[a].value)
  }

  ghost predicate IsDependencyCycle(g: Graph, p: seq<nat>) {
    |p| > 1 && p[0] == p[|p| - 1] && forall k :: 0 <= k < |p| - 1 ==> Feeds(g, p[k], p[k + 1])
  }

  ghost predicate Acceptable(g: Graph) {
    && LinksResolve(g)
    && WithinDepth(g)
    && (forall p :: !IsDependencyCycle(g, p))
    && (exists r :: 0 <= r < |g| && IsOnlyResult(g, r))
  }

  predicate IsOnlyResult(g: Graph, r: nat) {
    r < |g| && forall i :: 0 <= i < |g| ==> (g[i].process.result == Some(true) <==> i == r)
  }

  // ------------------------------------------------------ the visitor's effect

  /** What the edge-adding visitor does with the links of one walk, in order. */
  function Replay(v: Visit, idx: map<string, nat>, dst: nat, edges: seq<Edge>): (seq<Edge>, Option<GraphError>)
    decreases |v.refs|
  {
    if v.refs == [] then (edges, if v.tooDeep then Some(DepthExceeded(MAX_SUBGRAPH_DEPTH)) else None)
    else if v.refs[0] !in idx then (edges, Some(UnknownNodeReference(v.refs[0])))
    else Replay(Visit(v.refs[1..], v.tooDeep), idx, dst, edges + [(idx[v.refs[0]], dst)])
  }

  function ReplayArguments(args: seq<Field<real>>, idx: map<string, nat>, dst: nat, edges: seq<Edge>)
    : (seq<Edge>, Option<GraphError>)
  {
    if args == [] then (edges, None)
    else
      var (e, err) := Replay(WalkValue(args[0].value, 0), idx, dst, edges);
      if err.Some? then (e, err) else ReplayArguments(args[1..], idx, dst, e)
  }

  function ReplayNodes(nodes: seq<Node>, idx: map<string, nat>, dst: nat, edges: seq<Edge>)
    : (seq<Edge>, Option<GraphError>)
  {
    if nodes == [] then (edges, None)
    else
      var (e, err) := ReplayArguments(nodes[0].process.arguments, idx, dst, edges);
      if err.Some? then (e, err) else ReplayNodes(nodes[1..], idx, dst + 1, e)
  }

  lemma {:induction false} ReplayConcat(a: Visit, b: Visit, idx: map<string, nat>, dst: nat, edges: seq<Edge>)
    requires !a.tooDeep
    ensures var (e, err) := Replay(a, idx, dst, edges);
            Replay(Visit(a.refs + b.refs, b.tooDeep), idx, dst, edges)
            == if err.Some? then (e, err) else Replay(b, idx, dst, e)
    decreases |a.refs|
  {
    if a.refs == [] {
      assert a.refs + b.refs == b.refs;
    } else if a.refs[0] in idx {
      assert (a.refs + b.refs)[1..] == a.refs[1..] + b.refs;
      ReplayConcat(Visit(a.refs[1..], false), b, idx, dst, edges + [(idx[a.refs[0]], dst)]);
    }
  }

  lemma {:induction false} ReplayOutcome(v: Visit, idx: map<string, nat>, dst: nat, edges: seq<Edge>)
    ensures Replay(v, idx, dst, edges).1.None? <==> !v.tooDeep && forall id :: id in v.refs ==> id in idx
    ensures Replay(v, idx, dst, edges).1.None? ==>
              forall e :: e in Replay(v, idx, dst, edges).0 <==>
                e in edges || (e.1 == dst && exists id :: id in v.refs && idx[id] == e.0)
    decreases |v.refs|
  {
    if v.refs != [] && v.refs[0] in idx {
      ReplayOutcome(Visit(v.refs[1..], v.tooDeep), idx, dst, edges + [(idx[v.refs[0]], dst)]);
      assert v.refs == [v.refs[0]] + v.refs[1..];
    }
  }

  /** The walk of one argument adds its edges unless it is too deep or links to nothing. */
  lemma FirstWalkSucceeds(v: Value, idx: map<string, nat>, dst: nat, edges: seq<Edge>)
    ensures Replay(WalkValue(v, 0), idx, dst, edges).1.None? <==> !NestedTooDeep(v) && forall id :: LinksTo(v, id) ==> id in idx
  {
    hide WalkValue, NestedTooDeep, LinksTo, Replay;
    WalkMeetsReference(v);
    ReplayOutcome(WalkValue(v, 0), idx, dst, edges);
  }

  lemma {:induction false} ReplayArgumentsSucceeds(args: seq<Field<real>>, idx: map<string, nat>, dst: nat, edges: seq<Edge>)
    ensures ReplayArguments(args, idx, dst, edges).1.None? <==>
              forall a :: 0 <= a < |args| ==>
                && !NestedTooDeep(args[a].value)
                && (forall id :: LinksTo(args[a].value, id) ==> id in idx)
  {
    hide WalkValue, NestedTooDeep, LinksTo, Replay;
    if args != [] {
      var v := args[0].value;
      FirstWalkSucceeds(v, idx, dst, edges);
      var (e, err) := Replay(WalkValue(v, 0), idx, dst, edges);
      if err.None? {
        ReplayArgumentsSucceeds(args[1..], idx, dst, e);
        assert forall a :: 0 < a < |args| ==> args[a] == args[1..][a - 1];
      }
    }
  }

  lemma {:induction false} ReplayArgumentsEdges(args: seq<Field<real>>, idx: map<string, nat>, dst: nat, edges: seq<Edge>)
    ensures ReplayArguments(args, idx, dst, edges).1.None? ==>
              forall e :: e in ReplayArguments(args, idx, dst, edges).0 <==>
                e in edges || (e.1 == dst && exists id :: SomeLink(args, id) && id in idx && idx[id] == e.0)
  {
    if args != [] && ReplayArguments(args, idx, dst, edges).1.None? {
      hide WalkValue, NestedTooDeep, LinksTo, Replay;
      var v := args[0].value;
      WalkMeetsReference(v);
      ReplayOutcome(WalkValue(v, 0), idx, dst, edges);
      var (e, err) := Replay(WalkValue(v, 0), idx, dst, edges);
      ReplayArgumentsEdges(args[1..], idx, dst, e);
      forall id
        ensures SomeLink(args, id) <==> LinksTo(v, id) || SomeLink(args[1..], id)
      {
        assert forall a :: 0 < a < |args| ==> args[a] == args[1..][a - 1];
        assert forall a :: 0 <= a < |args[1..]| ==> args[1..][a] == args[a + 1];
      }
      hide SomeLink;
    }
  }

  lemma {:induction false} ReplayNodesOutcome(g: Graph, idx: map<string, nat>, k: nat, edges: seq<Edge>)
    requires k <= |g|
    ensures ReplayNodes(g[k..], idx, k, edges).1.None? <==>
              forall j, a :: k <= j < |g| && 0 <= a < |Arguments(g, j)| ==>
                && !NestedTooDeep(Arguments(g, j)[a].value)
                && (forall id :: LinksTo(Arguments(g, j)[a].value, id) ==> id in idx)
    ensures ReplayNodes(g[k..], idx, k, edges).1.None? ==>
              forall e :: e in ReplayNodes(g[k..], idx, k, edges).0 <==>
                e in edges ||
                (k <= e.1 < |g| && exists id :: SomeLink(Arguments(g, e.1), id) && id in idx && idx[id] == e.0)
    decreases |g| - k
  {
    if k < |g| {
      assert g[k..][1..] == g[k + 1..];
      ReplayArgumentsSucceeds(Arguments(g, k), idx, k, edges);
      ReplayArgumentsEdges(Arguments(g, k), idx, k, edges);
      var (e, err) := ReplayArguments(Arguments(g, k), idx, k, edges);
      if err.None? {
        ReplayNodesOutcome(g, idx, k + 1, e);
      }
    }
  }

  // ------------------------------------------------------------------- build

  /** What replaying a walk does before it comes to any child. */
  lemma WalkStarts(v: Value, depth: nat, idx: map<string, nat>, dst: nat, edges: seq<Edge>)
    ensures depth > MAX_SUBGRAPH_DEPTH ==>
              Replay(WalkValue(v, depth), idx, dst, edges) == (edges, Some(DepthExceeded(MAX_SUBGRAPH_DEPTH)))
    ensures depth <= MAX_SUBGRAPH_DEPTH && IsLink(v) ==>
              Replay(WalkValue(v, depth), idx, dst, edges)
              == if LinkTarget(v) in idx then (edges + [(idx[LinkTarget(v)], dst)], None)
                 else (edges, Some(UnknownNodeReference(LinkTarget(v))))
    ensures depth <= MAX_SUBGRAPH_DEPTH && !IsLink(v) ==> WalkValue(v, depth) == WalkAll(v, Children(v), depth + 1)
    ensures Replay(WalkAll(v, [], depth + 1), idx, dst, edges) == (edges, None)
  {
  }

  /** Replaying the walk of several children begins with the walk of the first. */
  lemma NextChild(v: Value, inner: seq<Value>, i: nat, depth: nat, idx: map<string, nat>, dst: nat, edges: seq<Edge>)
    requires i < |inner| && forall k :: 0 <= k < |inner| ==> inner[k] < v
    ensures var (e, err) := Replay(WalkValue(inner[i], depth), idx, dst, edges);
            Replay(WalkAll(v, inner[i..], depth), idx, dst, edges)
            == if err.Some? then (e, err) else Replay(WalkAll(v, inner[i + 1..], depth), idx, dst, e)
  {
    hide Replay, WalkValue;
    var child, rest := WalkValue(inner[i], depth), WalkAll(v, inner[i + 1..], depth);
    assert inner[i..][1..] == inner[i + 1..];
    if !child.tooDeep {
      ReplayConcat(child, rest, idx, dst, edges);
    } else {
      ReplayOutcome(child, idx, dst, edges);
    }
    hide WalkAll;
  }

  /** Walks `v`, adding an edge into `dst` for every link, until the first error. */
  method CollectInValue(v: Value, depth: nat, idx: map<string, nat>, dst: nat, edges0: seq<Edge>)
    returns (edges: seq<Edge>, err: Option<GraphError>)
    ensures (edges, err) == Replay(WalkValue(v, depth), idx, dst, edges0)
    decreases v
  {
    hide WalkValue, WalkAll, Replay;
    edges, err := edges0, None;
    WalkStarts(v, depth, idx, dst, edges0);
    if depth > MAX_SUBGRAPH_DEPTH {
      return edges, Some(DepthExceeded(MAX_SUBGRAPH_DEPTH));
    }
    if IsLink(v) {
      var src := LinkTarget(v);
      if src !in idx {
        return edges, Some(UnknownNodeReference(src));
      }
      return edges + [(idx[src], dst)], None;
    }
    var inner := Children(v);
    assert inner[0..] == inner;
    for i := 0 to |inner|
      invariant err.None?
      invariant Replay(WalkAll(v, inner[i..], depth + 1), idx, dst, edges)
             == Replay(WalkAll(v, inner, depth + 1), idx, dst, edges0)
    {
      NextChild(v, inner, i, depth + 1, idx, dst, edges);
      edges, err := CollectInValue(inner[i], depth + 1, idx, dst, edges);
      if err.Some? {
        return;
      }
    }
    assert inner[|inner|..] == [];
    WalkStarts(v, depth, idx, dst, edges);
  }

  /** Adds every node, recording its number. */
  method IndexNodes(g: Graph) returns (ids: seq<string>, idx: map<string, nat>)
    ensures ids == IdsOf(g) && idx == IndexMap(g)
  {
    ids, idx := [], map[];
    for i := 0 to |g|
      invariant ids == IdsOf(g)[..i]
      invariant forall k :: 0 <= k < i ==> g[k].id in idx && idx[g[k].id] == k
      invariant forall id :: id in idx ==> id in ids
    {
      assert IdsOf(g)[i] == g[i].id;
      idx := idx[g[i].id := i];
      ids := ids + [g[i].id];
    }
    assert ids == IdsOf(g);
    IndexIsUnique(g, idx);
  }

  /** Walks every argument of every node, adding its edges. */
  method CollectEdges(g: Graph, idx: map<string, nat>) returns (edges: seq<Edge>, err: Option<GraphError>)
    ensures (edges, err) == ReplayNodes(g, idx, 0, [])
  {
    edges, err := [], None;
    for j := 0 to |g|
      invariant err.None? && ReplayNodes(g[j..], idx, j, edges) == ReplayNodes(g, idx, 0, [])
    {
      assert g[j..][1..] == g[j + 1..];
      var args := g[j].process.arguments;
      ghost var before := edges;
      for a := 0 to |args|
        invariant err.None? && ReplayArguments(args[a..], idx, j, edges) == ReplayArguments(args, idx, j, before)
      {
        assert args[a..][1..] == args[a + 1..];
        edges, err := CollectInValue(args[a].value, 0, idx, j, edges);
        if err.Some? {
          return;
        }
      }
    }
  }

  method CollectResults(g: Graph) returns (results: seq<string>)
    ensures results == ResultNodes(g)
  {
    results := [];
    for i := 0 to |g|
      invariant results + ResultNodes(g[i..]) == ResultNodes(g)
    {
      assert g[i..][1..] == g[i + 1..];
      if g[i].process.result == Some(true) {
        results := results + [g[i].id];
      }
    }
  }

  method Build(g: Graph) returns (r: Result<Analysis, GraphError>)
    ensures r.Success? <==> Acceptable(g)
    ensures r.Success? ==> Describes(r.value, g)
    ensures r == BuildOutcome(g)
  {
    BuildAnswer(g);
    var ids, idx := IndexNodes(g);
    var edges, err := CollectEdges(g, idx);
    if err.Some? {
      return Failure(err.value);
    }
    var order := Sort(|g|, edges);
    if order.None? {
      return Failure(Cycle(if ids == [] then "<unknown>" else ids[0]));
    }
    var results := CollectResults(g);
    if |results| != 1 {
      return Failure(AmbiguousResult(|results|));
    }
    return Success(Analysis(ids, edges, results[0]));
  }

  function IndexOf(ids: seq<string>, id: string): (i: nat)
    requires id in ids
    ensures i < |ids| && ids[i] == id
  {
    if ids[0] == id then 0 else 1 + IndexOf(ids[1..], id)
  }

  /** The index the analyser keeps from node id to node number. */
  function IndexMap(g: Graph): map<string, nat> {
    var ids := IdsOf(g);
    map id | id in ids :: IndexOf(ids, id)
  }

  lemma IndexIsUnique(g: Graph, idx: map<string, nat>)
    requires forall k :: 0 <= k < |g| ==> g[k].id in idx && idx[g[k].id] == k
    requires forall id :: id in idx ==> id in IdsOf(g)
    ensures idx == IndexMap(g)
  {
    forall id | id in idx
      ensures id in IndexMap(g) && IndexMap(g)[id] == idx[id]
    {
      assert g[IndexOf(IdsOf(g), id)].id == id;
    }
    forall id | id in IndexMap(g)
      ensures id in idx
    {
      assert g[IndexOf(IdsOf(g), id)].id == id;
    }
  }

  /** The answer of `Build`, errors included, in the order in which the code detects them. */
  ghost function BuildOutcome(g: Graph): Result<Analysis, GraphError> {
    var (edges, err) := ReplayNodes(g, IndexMap(g), 0, []);
    if err.Some? then Failure(err.value)
    else if !Acyclic(edges) then Failure(Cycle(if g == [] then "<unknown>" else g[0].id))
    else if |ResultNodes(g)| != 1 then Failure(AmbiguousResult(|ResultNodes(g)|))
    else Success(Analysis(IdsOf(g), edges, ResultNodes(g)[0]))
  }

  /** What an analysis says about the graph it was built from. */
  ghost predicate Describes(a: Analysis, g: Graph) {
    && a.ids == IdsOf(g)
    && InRange(|g|, a.edges)
    && Acyclic(a.edges)
    && (forall i: nat, j: nat :: (i, j) in a.edges <==> Feeds(g, i, j))
    && (exists r :: 0 <= r < |g| && IsOnlyResult(g, r) && a.resultId == g[r].id)
  }

  lemma {:induction false} ResultNodesCount(g: seq<Node>)
    ensures |ResultNodes(g)| == 0 ==> forall i :: 0 <= i < |g| ==> g[i].process.result != Some(true)
    ensures |ResultNodes(g)| == 1 ==>
              exists r :: && 0 <= r < |g| && ResultNodes(g)[0] == g[r].id
                          && forall i :: 0 <= i < |g| ==> (g[i].process.result == Some(true) <==> i == r)
    ensures |ResultNodes(g)| > 1 ==>
              exists i, j :: 0 <= i < j < |g| && g[i].process.result == Some(true) && g[j].process.result == Some(true)
  {
    if g != [] {
      ResultNodesCount(g[1..]);
      assert forall i :: 0 < i < |g| ==> g[i] == g[1..][i - 1];
      assert forall i :: 0 <= i < |g[1..]| ==> g[1..][i] == g[i + 1];
      if |ResultNodes(g)| == 1 {
        if g[0].process.result == Some(true) {
          assert ResultNodes(g)[0] == g[0].id;
        } else {
          var r :| && 0 <= r < |g[1..]| && ResultNodes(g[1..])[0] == g[1..][r].id
                   && forall i :: 0 <= i < |g[1..]| ==> (g[1..][i].process.result == Some(true) <==> i == r);
          assert ResultNodes(g)[0] == g[r + 1].id;
        }
      } else if |ResultNodes(g)| > 1 {
        if g[0].process.result == Some(true) {
          assert |ResultNodes(g[1..])| >= 1;
          var j :| 0 <= j < |g[1..]| && g[1..][j].process.result == Some(true);
          assert 0 < j + 1 < |g| && g[j + 1].process.result == Some(true);
        } else {
          var i, j :| 0 <= i < j < |g[1..]| && g[1..][i].process.result == Some(true) && g[1..][j].process.result == Some(true);
          assert 0 <= i + 1 < j + 1 < |g| && g[i + 1].process.result == Some(true) && g[j + 1].process.result == Some(true);
        }
      }
    }
  }

  lemma WalksSucceed(g: Graph)
    ensures ReplayNodes(g, IndexMap(g), 0, []).1.None? <==> LinksResolve(g) && WithinDepth(g)
    ensures ReplayNodes(g, IndexMap(g), 0, []).1.None? ==>
              forall e :: e in ReplayNodes(g, IndexMap(g), 0, []).0 <==>
                (0 <= e.1 < |g| && exists id :: SomeLink(Arguments(g, e.1), id) && id in IndexMap(g) && IndexMap(g)[id] == e.0)
  {
    assert g[0..] == g;
    ReplayNodesOutcome(g, IndexMap(g), 0, []);
  }

  lemma OneResultNode(g: Graph)
    ensures |ResultNodes(g)| == 1 <==> exists r :: 0 <= r < |g| && IsOnlyResult(g, r)
    ensures |ResultNodes(g)| == 1 ==> exists r :: 0 <= r < |g| && IsOnlyResult(g, r) && ResultNodes(g)[0] == g[r].id
  {
    ResultNodesCount(g);
    if r :| 0 <= r < |g| && IsOnlyResult(g, r) {
      assert g[r].process.result == Some(true);
    }
    if |ResultNodes(g)| == 1 {
      var r :| && 0 <= r < |g| && ResultNodes(g)[0] == g[r].id
               && forall i :: 0 <= i < |g| ==> (g[i].process.result == Some(true) <==> i == r);
      assert IsOnlyResult(g, r);
    }
  }

  lemma BuildAnswer(g: Graph)
    ensures BuildOutcome(g).Success? <==> Acceptable(g)
    ensures BuildOutcome(g).Success? ==> Describes(BuildOutcome(g).value, g)
    ensures ReplayNodes(g, IndexMap(g), 0, []).1.None? ==> InRange(|g|, ReplayNodes(g, IndexMap(g), 0, []).0)
  {
    hide NestedTooDeep, LinksTo, ReplayNodes, ResultNodes;
    WalksSucceed(g);
    OneResultNode(g);
    var (edges, err) := ReplayNodes(g, IndexMap(g), 0, []);
    if err.None? {
      EdgesAreDependencies(g, edges);
    }
  }

  lemma EdgesAreDependencies(g: Graph, edges: seq<Edge>)
    requires LinksResolve(g)
    requires forall e :: e in edges <==>
               (0 <= e.1 < |g| && exists id :: SomeLink(Arguments(g, e.1), id) && id in IndexMap(g) && IndexMap(g)[id] == e.0)
    ensures forall i: nat, j: nat :: (i, j) in edges <==> Feeds(g, i, j)
    ensures InRange(|g|, edges)
    ensures Acyclic(edges) <==> forall p :: !IsDependencyCycle(g, p)
  {
    forall i: nat, j: nat
      ensures (i, j) in edges <==> Feeds(g, i, j)
    {
      if (i, j) in edges {
        var id :| SomeLink(Arguments(g, j), id) && id in IndexMap(g) && IndexMap(g)[id] == i;
        assert g[i].id == id;
      }
      if Feeds(g, i, j) {
        assert IdsOf(g)[i] == g[i].id;
        assert IndexMap(g)[g[i].id] == i && SomeLink(Arguments(g, j), g[i].id);
      }
    }
    forall p
      ensures IsCycle(edges, p) <==> IsDependencyCycle(g, p)
    {
    }
  }

  // ------------------------------------------------------------- the errors

  /** Some argument links to an id that no node has. */
  ghost predicate Dangles(g: Graph, target: string) {
    target !in IdsOf(g) && exists j :: 0 <= j < |g| && SomeLink(Arguments(g, j), target)
  }

  /** A walk that does not add its edges met a link to nothing, or stopped at the depth cap. */
  lemma {:induction false} ReplayError(v: Visit, idx: map<string, nat>, dst: nat, edges: seq<Edge>)
    ensures match Replay(v, idx, dst, edges).1
            case None => true
            case Some(UnknownNodeReference(target)) => target in v.refs && target !in idx
            case Some(e) => e == DepthExceeded(64) && v.tooDeep
    decreases |v.refs|
  {
    if v.refs != [] && v.refs[0] in idx {
      ReplayError(Visit(v.refs[1..], v.tooDeep), idx, dst, edges + [(idx[v.refs[0]], dst)]);
    }
  }

  lemma WalkError(v: Value, idx: map<string, nat>, dst: nat, edges: seq<Edge>)
    ensures match Replay(WalkValue(v, 0), idx, dst, edges).1
            case None => true
            case Some(UnknownNodeReference(target)) => LinksTo(v, target) && target !in idx
            case Some(e) => e == DepthExceeded(64) && NestedTooDeep(v)
  {
    hide WalkValue, NestedTooDeep, LinksTo, Replay;
    ReplayError(WalkValue(v, 0), idx, dst, edges);
    WalkMeetsReference(v);
  }

  lemma {:induction false} ArgumentsError(args: seq<Field<real>>, idx: map<string, nat>, dst: nat, edges: seq<Edge>)
    ensures match ReplayArguments(args, idx, dst, edges).1
            case None => true
            case Some(UnknownNodeReference(target)) => SomeLink(args, target) && target !in idx
            case Some(e) => e == DepthExceeded(64) && exists a :: 0 <= a < |args| && NestedTooDeep(args[a].value)
  {
    hide WalkValue, NestedTooDeep, LinksTo, Replay;
    if args != [] {
      WalkError(args[0].value, idx, dst, edges);
      ArgumentsError(args[1..], idx, dst, Replay(WalkValue(args[0].value, 0), idx, dst, edges).0);
      assert forall a :: 0 <= a < |args[1..]| ==> args[1..][a] == args[a + 1];
    }
  }

  lemma {:induction false} NodesError(g: Graph, idx: map<string, nat>, k: nat, edges: seq<Edge>)
    requires k <= |g|
    ensures match ReplayNodes(g[k..], idx, k, edges).1
            case None => true
            case Some(UnknownNodeReference(target)) => target !in idx && exists j :: 0 <= j < |g| && SomeLink(Arguments(g, j), target)
            case Some(e) => e == DepthExceeded(64) && !WithinDepth(g)
    decreases |g| - k
  {
    hide NestedTooDeep, SomeLink, ReplayArguments;
    if k < |g| {
      assert g[k..][1..] == g[k + 1..];
      ArgumentsError(Arguments(g, k), idx, k, edges);
      NodesError(g, idx, k + 1, ReplayArguments(Arguments(g, k), idx, k, edges).0);
    }
  }

  /** The positions of the nodes that are marked as the result. */
  function Marked(g: seq<Node>): set<nat> {
    set i: nat | i < |g| && g[i].process.result == Some(true)
  }

  lemma {:induction false} MarkedAreCounted(g: seq<Node>)
    ensures |ResultNodes(g)| == |Marked(g)|
  {
    if g != [] {
      var last := |g| - 1;
      assert g == g[..last] + [g[last]];
      ResultNodesAppend(g[..last], g[last]);
      MarkedAreCounted(g[..last]);
      MarkedAppend(g[..last], g[last]);
      hide ResultNodes, Marked;
    }
  }

  lemma MarkedAppend(g: seq<Node>, node: Node)
    ensures |Marked(g + [node])| == |Marked(g)| + (if node.process.result == Some(true) then 1 else 0)
  {
    var last: nat := |g|;
    assert last !in Marked(g);
    assert Marked(g + [node]) == Marked(g) + (if node.process.result == Some(true) then {last} else {});
  }

  lemma {:induction false} ResultNodesAppend(g: seq<Node>, node: Node)
    ensures ResultNodes(g + [node]) == ResultNodes(g) + (if node.process.result == Some(true) then [node.id] else [])
  {
    if g == [] {
      assert g + [node] == [node];
    } else {
      assert (g + [node])[1..] == g[1..] + [node];
      ResultNodesAppend(g[1..], node);
    }
  }

  /** Each error, said by the graph: what the graph is like when it comes, and what it carries. */
  lemma BuildErrors(g: Graph)
    ensures BuildOutcome(g).Success? <==> LinksResolve(g) && WithinDepth(g) && (forall p :: !IsDependencyCycle(g, p)) && |Marked(g)| == 1
    ensures match BuildOutcome(g)
            case Success(_) => true
            case Failure(UnknownNodeReference(target)) => Dangles(g, target)
            case Failure(DepthExceeded(limit)) => limit == 64 && !WithinDepth(g)
            case Failure(Cycle(id)) => LinksResolve(g) && WithinDepth(g) && (exists p :: IsDependencyCycle(g, p)) && g != [] && id == g[0].id
            case Failure(AmbiguousResult(n)) =>
              LinksResolve(g) && WithinDepth(g) && (forall p :: !IsDependencyCycle(g, p)) && n == |Marked(g)| && n != 1
  {
    hide NestedTooDeep, LinksTo, ReplayNodes, Acyclic, IsDependencyCycle;
    BuildAnswer(g);
    WalksSucceed(g);
    MarkedAreCounted(g);
    OneResultNode(g);
    assert g[0..] == g;
    NodesError(g, IndexMap(g), 0, []);
    var (edges, err) := ReplayNodes(g, IndexMap(g), 0, []);
    if err.None? {
      EdgesAreDependencies(g, edges);
      NoNodesNoCycle(g);
    }
  }

  lemma NoNodesNoCycle(g: Graph)
    ensures g == [] ==> forall p :: !IsDependencyCycle(g, p)
  {
    forall p | IsDependencyCycle(g, p)
      ensures g != []
    {
      assert Feeds(g, p[0], p[0 + 1]);
    }
  }

  // ------------------------------------------------------- callback isolation

  /** The same nodes, except for the bodies of sub-process callbacks in their arguments. */
  predicate SameButCallbacks(g: Graph, h: Graph) {
    |g| == |h| && forall j :: 0 <= j < |g| ==>
      && g[j].id == h[j].id
      && g[j].process.result == h[j].process.result
      && |Arguments(g, j)| == |Arguments(h, j)|
      && forall a :: 0 <= a < |Arguments(g, j)| ==> SameButCallbackBodies(Arguments(g, j)[a].value, Arguments(h, j)[a].value)
  }

  lemma {:induction false} CallbackBodiesInArguments(f: seq<Field<real>>, h: seq<Field<real>>, idx: map<string, nat>, dst: nat, edges: seq<Edge>)
    requires |f| == |h| && forall a :: 0 <= a < |f| ==> SameButCallbackBodies(f[a].value, h[a].value)
    ensures ReplayArguments(f, idx, dst, edges) == ReplayArguments(h, idx, dst, edges)
  {
    if f != [] {
      CallbackBodiesAreInvisible(f[0].value, h[0].value, 0);
      var (e, err) := Replay(WalkValue(f[0].value, 0), idx, dst, edges);
      CallbackBodiesInArguments(f[1..], h[1..], idx, dst, e);
    }
  }

  lemma {:induction false} CallbackBodiesInNodes(g: Graph, h: Graph, idx: map<string, nat>, k: nat, edges: seq<Edge>)
    requires SameButCallbacks(g, h) && k <= |g|
    ensures ReplayNodes(g[k..], idx, k, edges) == ReplayNodes(h[k..], idx, k, edges)
    decreases |g| - k
  {
    if k < |g| {
      assert g[k..][1..] == g[k + 1..] && h[k..][1..] == h[k + 1..];
      CallbackBodiesInArguments(Arguments(g, k), Arguments(h, k), idx, k, edges);
      var (e, err) := ReplayArguments(Arguments(g, k), idx, k, edges);
      CallbackBodiesInNodes(g, h, idx, k + 1, e);
    }
  }

  lemma {:induction false} SameResultNodes(g: seq<Node>, h: seq<Node>)
    requires |g| == |h| && forall j :: 0 <= j < |g| ==> g[j].id == h[j].id && g[j].process.result == h[j].process.result
    ensures ResultNodes(g) == ResultNodes(h)
  {
    if g != [] {
      SameResultNodes(g[1..], h[1..]);
    }
  }

  /** Rewriting the bodies of sub-process callbacks changes neither the edges nor the verdict. */
  lemma CallbackIsolation(g: Graph, h: Graph)
    requires SameButCallbacks(g, h)
    ensures BuildOutcome(g) == BuildOutcome(h)
    ensures Acceptable(g) <==> Acceptable(h)
  {
    assert IdsOf(g) == IdsOf(h);
    assert g[0..] == g && h[0..] == h;
    CallbackBodiesInNodes(g, h, IndexMap(g), 0, []);
    SameResultNodes(g, h);
    BuildAnswer(g);
    BuildAnswer(h);
  }

  // --------------------------------------------------------- evaluation order

  /** `order` lists every node id once, each after all the nodes that feed it. */
  ghost predicate IsEvaluationOrder(g: Graph, order: seq<string>) {
    && |order| == |g|
    && Distinct(order)
    && (forall id :: id in order <==> id in IdsOf(g))
    && (forall i: nat, j: nat, a: nat, b: nat ::
          Feeds(g, i, j) && a < |order| && b < |order| && order[a] == g[i].id && order[b] == g[j].id ==> a < b)
  }

  method EvaluationOrder(a: Analysis, ghost g: Graph) returns (order: seq<string>)
    requires Describes(a, g)
    ensures IsEvaluationOrder(g, order)
  {
    var topo := Sort(|a.ids|, a.edges);
    order := [];
    if topo.Some? {
      order := seq(|topo.value|, i requires 0 <= i < |topo.value| =>
                 if topo.value[i] < |a.ids| then a.ids[topo.value[i]] else "");
      IdsInTopologicalOrder(a, g, topo.value, order);
    }
  }

  /** Reading a permutation of the node numbers as ids gives each id once. */
  lemma PermutedIds(g: Graph, topo: seq<nat>, order: seq<string>)
    requires |topo| == |g| && Distinct(topo) && forall i :: 0 <= i < |g| ==> topo[i] < |g|
    requires |order| == |g| && forall i :: 0 <= i < |g| ==> order[i] == g[topo[i]].id
    ensures Distinct(order)
    ensures forall id :: id in order <==> id in IdsOf(g)
  {
    assert forall i :: 0 <= i < |g| ==> order[i] == IdsOf(g)[topo[i]];
    DistinctBelow(topo, |g|);
    forall id | id in IdsOf(g)
      ensures id in order
    {
      var k := IndexOf(IdsOf(g), id);
      assert k in topo;
    }
  }

  lemma SameIdSameNode(g: Graph, i: nat, j: nat)
    requires i < |g| && j < |g| && g[i].id == g[j].id
    ensures i == j
  {
    assert IdsOf(g)[i] == IdsOf(g)[j];
  }

  lemma IdsInTopologicalOrder(a: Analysis, g: Graph, topo: seq<nat>, order: seq<string>)
    requires Describes(a, g) && IsTopological(|g|, a.edges, topo)
    requires |order| == |g| && forall i :: 0 <= i < |g| ==> order[i] == g[topo[i]].id
    ensures IsEvaluationOrder(g, order)
  {
    PermutedIds(g, topo, order);
    hide IdsOf, Acyclic, InRange;
    forall i: nat, j: nat, x: nat, y: nat |
      Feeds(g, i, j) && x < |order| && y < |order| && order[x] == g[i].id && order[y] == g[j].id
      ensures x < y
    {
      SameIdSameNode(g, topo[x], i);
      SameIdSameNode(g, topo[y], j);
      assert (topo[x], topo[y]) in a.edges;
    }
  }

  // ------------------------------------------- is the result evaluated last?

  ghost predicate Feedless(g: Graph, i: nat) {
    i < |g| && forall j :: 0 <= j < |g| ==> !Feeds(g, i, j)
  }

  /**
   The documentation promises that the result node comes last. The order need not do so:
   it does for every topological order exactly when no other node is without consumers.
   */
  lemma ResultIsLastIffOnlySink(g: Graph, r: nat, some: seq<string>)
    requires r < |g| && IsEvaluationOrder(g, some)
    ensures (forall order :: IsEvaluationOrder(g, order) ==> order[|order| - 1] == g[r].id)
       <==> (forall i :: 0 <= i < |g| && i != r ==> !Feedless(g, i))
  {
    var n := |g|;
    assert forall i :: 0 <= i < n ==> IdsOf(g)[i] == g[i].id;
    if forall i :: 0 <= i < n && i != r ==> !Feedless(g, i) {
      forall order | IsEvaluationOrder(g, order)
        ensures order[n - 1] == g[r].id
      {
        assert order[n - 1] in order;
        var i := IndexOf(IdsOf(g), order[n - 1]);
        LastIsFeedless(g, order, i);
      }
    } else {
      var i :| 0 <= i < n && i != r && Feedless(g, i);
      var moved := MoveLast(g, i, some);
      assert moved[n - 1] != g[r].id;
    }
  }

  lemma FeederIsNotLast(g: Graph, order: seq<string>, i: nat, j: nat)
    requires IsEvaluationOrder(g, order) && Feeds(g, i, j)
    ensures order[|order| - 1] != g[i].id
  {
    assert IdsOf(g)[j] == g[j].id && g[j].id in order;
    var b :| 0 <= b < |order| && order[b] == g[j].id;
  }

  lemma LastIsFeedless(g: Graph, order: seq<string>, i: nat)
    requires IsEvaluationOrder(g, order) && i < |g| && order[|order| - 1] == g[i].id
    ensures Feedless(g, i)
  {
    forall j | 0 <= j < |g|
      ensures !Feeds(g, i, j)
    {
      if Feeds(g, i, j) {
        FeederIsNotLast(g, order, i, j);
      }
    }
  }

  /** `order` with its element at `k` moved to the end. */
  function MovedLast(order: seq<string>, k: nat): seq<string>
    requires k < |order|
  {
    order[..k] + order[k + 1..] + [order[k]]
  }

  /** Where the element at `x` of the moved order came from. */
  function CameFrom(order: seq<string>, k: nat, x: nat): (y: nat)
    requires k < |order| && x < |order|
    ensures y < |order| && MovedLast(order, k)[x] == order[y]
  {
    if x < k then x else if x == |order| - 1 then k else x + 1
  }

  lemma MovedLastPermutes(order: seq<string>, k: nat)
    requires k < |order| && Distinct(order)
    ensures |MovedLast(order, k)| == |order| && Distinct(MovedLast(order, k))
    ensures forall id :: id in MovedLast(order, k) <==> id in order
  {
    var moved := MovedLast(order, k);
    assert order == order[..k] + [order[k]] + order[k + 1..];
    forall x: nat, y: nat | x < y < |order|
      ensures moved[x] != moved[y]
    {
      assert CameFrom(order, k, x) != CameFrom(order, k, y);
    }
  }

  lemma MoveLast(g: Graph, i: nat, order: seq<string>) returns (moved: seq<string>)
    requires IsEvaluationOrder(g, order) && Feedless(g, i)
    ensures IsEvaluationOrder(g, moved) && moved[|moved| - 1] == g[i].id
  {
    assert IdsOf(g)[i] == g[i].id && g[i].id in order;
    var k :| 0 <= k < |order| && order[k] == g[i].id;
    moved := MovedLast(order, k);
    MovedLastPermutes(order, k);
    forall p: nat, q: nat, a: nat, b: nat |
      Feeds(g, p, q) && a < |moved| && b < |moved| && moved[a] == g[p].id && moved[b] == g[q].id
      ensures a < b
    {
      StillForward(g, i, order, k, p, q, a, b);
    }
    hide Feeds, Feedless, MovedLast;
  }

  /** Moving a node that feeds nothing turns no dependency around. */
  lemma StillForward(g: Graph, i: nat, order: seq<string>, k: nat, p: nat, q: nat, a: nat, b: nat)
    requires IsEvaluationOrder(g, order) && Feedless(g, i) && k < |order| && order[k] == g[i].id
    requires Feeds(g, p, q) && a < |order| && b < |order|
    requires MovedLast(order, k)[a] == g[p].id && MovedLast(order, k)[b] == g[q].id
    ensures a < b
  {
    assert p != i && p < |g| && q < |g|;
    if g[p].id == g[i].id {
      SameIdSameNode(g, p, i);
    }
    assert CameFrom(order, k, a) < CameFrom(order, k, b);
    hide IsEvaluationOrder, Feeds, Feedless, IdsOf;
  }

  /** An accepted graph with an evaluation order that does not end with its result. */
  lemma ResultNeedNotBeLast() returns (g: Graph, order: seq<string>)
    ensures Acceptable(g) && IsEvaluationOrder(g, order)
    ensures IsOnlyResult(g, 0) && order[|order| - 1] != g[0].id
  {
    var nodes := [Node("a", Process("save_result", [], Some(true))), Node("b", Process("save_result", [], None))];
    assert IdsOf(nodes)[0] == "a" && IdsOf(nodes)[1] == "b";
    g := nodes;
    order := ["a", "b"];
    assert IdsOf(g) == order;
    assert forall i: nat, j: nat :: !Feeds(g, i, j);
    assert IsOnlyResult(g, 0);
    forall p
      ensures !IsDependencyCycle(g, p)
    {
      if |p| > 1 { assert !Feeds(g, p[0], p[0 + 1]); }
    }
  }
}
