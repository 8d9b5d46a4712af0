/**
 Topological sorting of a directed graph by an iterative depth-first search, and what
 a topological order is worth: it exists exactly when there is no cycle.

 This stands for the `is_cyclic_directed` and `toposort` calls of
 apps/orbit-openeo/src/process_graph.rs.
 */
module TopoSort {
  import opened Wrappers
  import opened Json

  /** An edge `(src, dst)`: `dst` needs `src`. */
  type Edge = (nat, nat)

  predicate InRange(n: nat, edges: seq<Edge>) {
    forall e :: e in edges ==> e.0 < n && e.1 < n
  }

  /** A nonempty sequence of nodes in which each is followed by one of its successors. */
  predicate IsPath(edges: seq<Edge>, p: seq<nat>) {
    |p| > 0 && forall i :: 0 <= i < |p| - 1 ==> (p[i], p[i + 1]) in edges
  }

  predicate IsCycle(edges: seq<Edge>, p: seq<nat>) {
    |p| > 1 && IsPath(edges, p) && p[0] == p[|p| - 1]
  }

  ghost predicate Acyclic(edges: seq<Edge>) {
    forall p :: !IsCycle(edges, p)
  }

  /** Each of the `n` nodes once, and no edge that points backwards or to its own source. */
  predicate IsTopological(n: nat, edges: seq<Edge>, order: seq<nat>) {
    && |order| == n
    && Distinct(order)
    && (forall i :: 0 <= i < n ==> order[i] < n)
    && (forall i, j :: 0 <= i <= j < n ==> (order[j], order[i]) !in edges)
  }

  // ------------------------------------------------------------ counting facts

  lemma {:induction false} DistinctBelow(s: seq<nat>, n: nat)
    requires Distinct(s) && forall i :: 0 <= i < |s| ==> s[i] < n
    ensures |s| <= n
    ensures |s| == n ==> forall x: nat :: x < n ==> x in s
  {
    if s != [] {
      assert s[0] < n;
      if k :| 0 <= k < |s| && s[k] == n - 1 {
        var rest := s[..k] + s[k + 1..];
        forall i | 0 <= i < |rest|
          ensures rest[i] < n - 1
        {
          assert rest[i] == if i < k then s[i] else s[i + 1];
        }
        DistinctBelow(rest, n - 1);
        forall x: nat | |s| == n && x < n
          ensures x in s
        {
          assert x != s[k] ==> x in rest;
        }
      } else {
        DistinctBelow(s, n - 1);
      }
    }
  }

  /** In a topological order every path runs strictly forward. */
  lemma {:induction false} PathRunsForward(n: nat, edges: seq<Edge>, order: seq<nat>, p: seq<nat>, i: nat, j: nat)
    requires IsTopological(n, edges, order) && IsPath(edges, p) && |p| > 1
    requires forall k :: 0 <= k < |p| ==> p[k] < n
    requires i < n && j < n && order[i] == p[0] && order[j] == p[|p| - 1]
    ensures i < j
    decreases |p|
  {
    DistinctBelow(order, n);
    assert p[1] in order;
    var m :| 0 <= m < n && order[m] == p[1];
    assert (order[i], order[m]) in edges;
    assert i < m;
    if |p| == 2 {
      assert order[j] == order[m];
    } else {
      PathRunsForward(n, edges, order, p[1..], m, j);
    }
  }

  lemma OrderRulesOutCycles(n: nat, edges: seq<Edge>, order: seq<nat>)
    requires InRange(n, edges) && IsTopological(n, edges, order)
    ensures Acyclic(edges)
  {
    forall p
      ensures !IsCycle(edges, p)
    {
      if IsCycle(edges, p) {
        forall k | 0 <= k < |p|
          ensures p[k] < n
        {
          var i := if k < |p| - 1 then k else k - 1;
          assert (p[i], p[i + 1]) in edges;
        }
        DistinctBelow(order, n);
        assert p[0] in order;
        var i :| 0 <= i < n && order[i] == p[0];
        PathRunsForward(n, edges, order, p, i, i);
      }
    }
  }

  // -------------------------------------------------------- depth-first search

  /** A node being explored, and the position in the edge list reached for it. */
  datatype Frame = Frame(node: nat, cursor: nat)

  function Nodes(stack: seq<Frame>): seq<nat> {
    seq(|stack|, i requires 0 <= i < |stack| => stack[i].node)
  }

  /** All edges leaving `u` among the first `k` lead into `done`. */
  predicate ExploredUpTo(edges: seq<Edge>, u: nat, k: nat, done: seq<nat>) {
    forall i :: 0 <= i < k && i < |edges| && edges[i].0 == u ==> edges[i].1 in done
  }

  /** What the search keeps: open nodes form a path, finished nodes are closed under successors. */
  ghost predicate SearchInv(n: nat, edges: seq<Edge>, stack: seq<Frame>, done: seq<nat>) {
    && Distinct(Nodes(stack) + done)
    && (forall i :: 0 <= i < |stack| ==> stack[i].node < n && stack[i].cursor <= |edges|)
    && (forall i :: 0 <= i < |done| ==> done[i] < n)
    && (forall i :: 0 <= i < |stack| - 1 ==>
          stack[i].cursor < |edges| && edges[stack[i].cursor] == (stack[i].node, stack[i + 1].node))
    && (forall i :: 0 <= i < |stack| ==> ExploredUpTo(edges, stack[i].node, stack[i].cursor, done))
    && FinishedClosed(edges, done)
  }

  predicate FinishedClosed(edges: seq<Edge>, done: seq<nat>) {
    forall i :: 0 <= i < |done| ==> ExploredUpTo(edges, done[i], |edges|, done[..i])
  }

  lemma BackEdgeClosesCycle(n: nat, edges: seq<Edge>, stack: seq<Frame>, done: seq<nat>, k: nat)
    requires SearchInv(n, edges, stack, done) && k < |stack|
    requires (stack[|stack| - 1].node, stack[k].node) in edges
    ensures !Acyclic(edges)
  {
    hide ExploredUpTo, FinishedClosed;
    var p := Nodes(stack)[k..] + [stack[k].node];
    forall i | 0 <= i < |p| - 1
      ensures (p[i], p[i + 1]) in edges
    {
      if i < |p| - 2 {
        assert edges[stack[k + i].cursor] == (p[i], p[i + 1]);
      }
    }
    assert IsCycle(edges, p);
  }

  lemma FinishedReversedIsTopological(n: nat, edges: seq<Edge>, done: seq<nat>, order: seq<nat>)
    requires FinishedClosed(edges, done) && Distinct(done) && |done| == n == |order|
    requires forall i :: 0 <= i < n ==> done[i] < n
    requires forall i :: 0 <= i < n ==> order[i] == done[n - 1 - i]
    ensures IsTopological(n, edges, order)
  {
    forall i, j | 0 <= i <= j < n
      ensures (order[j], order[i]) !in edges
    {
      var d := n - 1 - j;
      assert ExploredUpTo(edges, done[d], |edges|, done[..d]);
      assert order[i] !in done[..d];
    }
  }

  /** Explores everything reachable from `root`; `None` reports a cycle. */
  method Explore(n: nat, edges: seq<Edge>, root: nat, done0: seq<nat>) returns (r: Option<seq<nat>>)
    requires InRange(n, edges) && root < n && root !in done0
    requires SearchInv(n, edges, [], done0)
    ensures r.None? ==> !Acyclic(edges)
    ensures r.Some? ==> SearchInv(n, edges, [], r.value) && root in r.value && done0 <= r.value
  {
    var stack := [Frame(root, 0)];
    var done := done0;
    assert Nodes([]) + done == done;
    PushFresh([], root, done);
    assert Nodes(stack) == [] + [root];
    while stack != []
      invariant SearchInv(n, edges, stack, done)
      invariant done0 <= done && (root in done || (stack != [] && stack[0].node == root))
      decreases n - |done|, n - |stack| - |done|, if stack == [] then 0 else |edges| - stack[|stack| - 1].cursor
    {
      var top := stack[|stack| - 1];
      OpenAndDoneFit(n, edges, stack, done);
      if top.cursor == |edges| {
        FinishTop(n, edges, stack, done);
        stack := stack[..|stack| - 1];
        done := done + [top.node];
      } else {
        var (src, dst) := edges[top.cursor];
        if src != top.node || dst in done {
          AdvanceTop(n, edges, stack, done);
          stack := stack[..|stack| - 1] + [Frame(top.node, top.cursor + 1)];
        } else if dst in Nodes(stack) {
          ghost var k :| 0 <= k < |stack| && Nodes(stack)[k] == dst;
          BackEdgeClosesCycle(n, edges, stack, done, k);
          return None;
        } else {
          OpenSuccessor(n, edges, stack, done, dst);
          stack := stack + [Frame(dst, 0)];
        }
      }
      OpenAndDoneFit(n, edges, stack, done);
    }
    return Some(done);
  }

  lemma OpenAndDoneFit(n: nat, edges: seq<Edge>, stack: seq<Frame>, done: seq<nat>)
    requires SearchInv(n, edges, stack, done)
    ensures |stack| + |done| <= n
  {
    forall i | 0 <= i < |Nodes(stack) + done|
      ensures (Nodes(stack) + done)[i] < n
    {
      assert i < |stack| ==> Nodes(stack)[i] == stack[i].node;
    }
    DistinctBelow(Nodes(stack) + done, n);
  }

  lemma AdvanceTop(n: nat, edges: seq<Edge>, stack: seq<Frame>, done: seq<nat>)
    requires SearchInv(n, edges, stack, done) && stack != []
    requires var top := stack[|stack| - 1];
             top.cursor < |edges| && (edges[top.cursor].0 != top.node || edges[top.cursor].1 in done)
    ensures var top := stack[|stack| - 1];
            SearchInv(n, edges, stack[..|stack| - 1] + [Frame(top.node, top.cursor + 1)], done)
  {
    var top := stack[|stack| - 1];
    var advanced := stack[..|stack| - 1] + [Frame(top.node, top.cursor + 1)];
    assert Nodes(advanced) == Nodes(stack);
  }

  lemma OpenSuccessor(n: nat, edges: seq<Edge>, stack: seq<Frame>, done: seq<nat>, dst: nat)
    requires InRange(n, edges) && SearchInv(n, edges, stack, done) && stack != []
    requires var top := stack[|stack| - 1]; top.cursor < |edges| && edges[top.cursor] == (top.node, dst)
    requires dst !in done && dst !in Nodes(stack)
    ensures SearchInv(n, edges, stack + [Frame(dst, 0)], done)
  {
    var pushed := stack + [Frame(dst, 0)];
    assert Nodes(pushed) == Nodes(stack) + [dst];
    PushFresh(Nodes(stack), dst, done);
    assert edges[stack[|stack| - 1].cursor] in edges;
  }

  lemma PushFresh(open: seq<nat>, x: nat, done: seq<nat>)
    requires Distinct(open + done) && x !in open && x !in done
    ensures Distinct(open + [x] + done)
  {
    var s, t := open + done, open + [x] + done;
    forall i, j | 0 <= i < j < |t|
      ensures t[i] != t[j]
    {
      assert i < |open| ==> t[i] == s[i];
      assert i > |open| ==> t[i] == s[i - 1];
      assert j < |open| ==> t[j] == s[j];
      assert j > |open| ==> t[j] == s[j - 1];
      assert t[|open|] == x && x !in s;
    }
  }

  lemma FinishTop(n: nat, edges: seq<Edge>, stack: seq<Frame>, done: seq<nat>)
    requires SearchInv(n, edges, stack, done) && stack != []
    requires stack[|stack| - 1].cursor == |edges|
    ensures SearchInv(n, edges, stack[..|stack| - 1], done + [stack[|stack| - 1].node])
  {
    var top := stack[|stack| - 1].node;
    var below, done' := stack[..|stack| - 1], done + [top];
    var s, t := Nodes(stack) + done, Nodes(below) + done';
    assert Nodes(stack) == Nodes(below) + [top];
    forall i, j | 0 <= i < j < |t|
      ensures t[i] != t[j]
    {
      var b := |below|;
      assert forall k :: 0 <= k < b ==> t[k] == s[k];
      assert forall k :: b <= k < b + |done| ==> t[k] == s[k + 1];
      assert t[|t| - 1] == s[b];
    }
    forall i | 0 <= i < |done'|
      ensures ExploredUpTo(edges, done'[i], |edges|, done'[..i])
    {
      if i < |done| {
        assert done'[..i] == done[..i];
      } else {
        assert done'[..i] == done;
      }
    }
    forall i | 0 <= i < |below|
      ensures ExploredUpTo(edges, below[i].node, below[i].cursor, done')
    {
      assert below[i] == stack[i];
    }
  }

  lemma CompleteSearch(n: nat, edges: seq<Edge>, done: seq<nat>, order: seq<nat>)
    requires InRange(n, edges) && SearchInv(n, edges, [], done)
    requires forall x: nat :: x < n ==> x in done
    requires |order| == |done| && forall i :: 0 <= i < |done| ==> order[i] == done[|done| - 1 - i]
    ensures IsTopological(n, edges, order) && Acyclic(edges)
  {
    assert Nodes([]) + done == done;
    hide Acyclic, IsTopological;
    DistinctBelow(done, n);
    CoveringIsLong(done, n);
    FinishedReversedIsTopological(n, edges, done, order);
    OrderRulesOutCycles(n, edges, order);
  }

  /** A topological order of all `n` nodes, or `None` exactly when the edges contain a cycle. */
  method Sort(n: nat, edges: seq<Edge>) returns (order: Option<seq<nat>>)
    requires InRange(n, edges)
    ensures order.Some? <==> Acyclic(edges)
    ensures order.Some? ==> IsTopological(n, edges, order.value)
  {
    var done: seq<nat> := [];
    var root := 0;
    assert SearchInv(n, edges, [], done) by {
      assert Nodes([]) + done == [];
    }
    hide SearchInv;
    while root < n
      invariant 0 <= root <= n
      invariant SearchInv(n, edges, [], done)
      invariant forall x: nat :: x < root ==> x in done
    {
      if root !in done {
        var r := Explore(n, edges, root, done);
        if r.None? {
          return None;
        }
        assert forall x :: x in done ==> x in r.value;
        done := r.value;
      }
      root := root + 1;
    }
    var reversed := seq(|done|, i requires 0 <= i < |done| => done[|done| - 1 - i]);
    CompleteSearch(n, edges, done, reversed);
    return Some(reversed);
  }

  lemma {:induction false} CoveringIsLong(s: seq<nat>, n: nat)
    requires forall x: nat :: x < n ==> x in s
    ensures |s| >= n
  {
    if n > 0 {
      assert n - 1 in s;
      var k :| 0 <= k < |s| && s[k] == n - 1;
      var rest := s[..k] + s[k + 1..];
      forall x: nat | x < n - 1
        ensures x in rest
      {
        assert x in s;
        var i :| 0 <= i < |s| && s[i] == x;
        assert rest[if i < k then i else i - 1] == x;
      }
      CoveringIsLong(rest, n - 1);
    }
  }
}
