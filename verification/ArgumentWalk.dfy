/**
 The depth-limited walk over one argument value that finds the `from_node` links of
 the outer namespace (apps/orbit-openeo/src/process_graph.rs, `collect_in_value_inner`).

 `WalkValue` is the walk itself. Its reference is `At`: the value found by following
 a path of child positions through containers that are neither links nor callbacks.
 */
module ArgumentWalk {
  import opened Wrappers
  import opened Json

  type Value = Json<real>

  const MAX_SUBGRAPH_DEPTH: nat := 64

  /** An object with a string under `from_node`, whatever its other keys. */
  predicate IsLink(v: Value) {
    && v.Object?
    && var t := Get(v.fields, "from_node");
       t.Some? && t.value.String?
  }

  function LinkTarget(v: Value): string
    requires IsLink(v)
  {
    Get(v.fields, "from_node").value.s
  }

  /** A sub-process callback: its links live in an inner namespace. */
  predicate IsCallback(v: Value) {
    v.Object? && !IsLink(v) && Get(v.fields, "process_graph").Some?
  }

  /** The values the walk descends into; links and callbacks are closed. */
  function Children(v: Value): (r: seq<Value>)
    ensures forall i :: 0 <= i < |r| ==> r[i] < v
  {
    match v
    case Array(items) => items
    case Object(fields) =>
      if IsLink(v) || IsCallback(v) then []
      else seq(|fields|, i requires 0 <= i < |fields| => fields[i].value)
    case _ => []
  }

  /** Outcome of a walk: the links met, in order, and whether it stopped at the depth cap. */
  datatype Visit = Visit(refs: seq<string>, tooDeep: bool)

  function WalkValue(v: Value, depth: nat): Visit
    decreases v, 1, 0
  {
    if depth > MAX_SUBGRAPH_DEPTH then Visit([], true)
    else if IsLink(v) then Visit([LinkTarget(v)], false)
    else WalkAll(v, Children(v), depth + 1)
  }

  /** Walks the children `cs` of `parent` left to right, stopping at the first that is too deep. */
  function WalkAll(ghost parent: Value, cs: seq<Value>, depth: nat): Visit
    requires forall i :: 0 <= i < |cs| ==> cs[i] < parent
    decreases parent, 0, |cs|
  {
    if cs == [] then Visit([], false)
    else
      var first := WalkValue(cs[0], depth);
      if first.tooDeep then first
      else
        var rest := WalkAll(parent, cs[1..], depth);
        Visit(first.refs + rest.refs, rest.tooDeep)
  }

  // ---------------------------------------------------------------- reference

  function At(v: Value, path: seq<nat>): Option<Value>
    decreases |path|
  {
    if path == [] then Some(v)
    else if path[0] < |Children(v)| then At(Children(v)[path[0]], path[1..])
    else None
  }

  /** `v` contains a link to `id` that belongs to the outer namespace. */
  ghost predicate LinksTo(v: Value, id: string) {
    exists path :: LinkAt(v, path, id)
  }

  predicate LinkAt(v: Value, path: seq<nat>, id: string) {
    var w := At(v, path);
    w.Some? && IsLink(w.value) && LinkTarget(w.value) == id
  }

  /** Some value outside every callback is nested more than `MAX_SUBGRAPH_DEPTH` levels deep. */
  ghost predicate NestedTooDeep(v: Value) {
    exists path :: At(v, path).Some? && |path| > MAX_SUBGRAPH_DEPTH
  }

  lemma {:induction false} WalkAllStops(parent: Value, cs: seq<Value>, depth: nat)
    requires forall i :: 0 <= i < |cs| ==> cs[i] < parent
    ensures WalkAll(parent, cs, depth).tooDeep <==> exists i :: 0 <= i < |cs| && WalkValue(cs[i], depth).tooDeep
    decreases |cs|
  {
    if cs != [] {
      WalkAllStops(parent, cs[1..], depth);
      assert forall i :: 0 < i < |cs| ==> cs[i] == cs[1..][i - 1];
    }
  }

  lemma {:induction false} WalkAllRefs(parent: Value, cs: seq<Value>, depth: nat, id: string)
    requires forall i :: 0 <= i < |cs| ==> cs[i] < parent
    ensures !WalkAll(parent, cs, depth).tooDeep ==>
              forall i :: 0 <= i < |cs| && id in WalkValue(cs[i], depth).refs ==> id in WalkAll(parent, cs, depth).refs
    decreases |cs|
  {
    if cs != [] {
      WalkAllRefs(parent, cs[1..], depth, id);
      assert forall i :: 0 < i < |cs| ==> cs[i] == cs[1..][i - 1];
    }
  }

  lemma {:induction false} DeepPathStopsWalk(v: Value, depth: nat, path: seq<nat>)
    requires At(v, path).Some? && depth + |path| > MAX_SUBGRAPH_DEPTH
    ensures WalkValue(v, depth).tooDeep
    decreases |path|
  {
    if depth <= MAX_SUBGRAPH_DEPTH {
      DeepPathStopsWalk(Children(v)[path[0]], depth + 1, path[1..]);
      WalkAllStops(v, Children(v), depth + 1);
    }
  }

  lemma StoppedInChild(v: Value, depth: nat) returns (i: nat)
    requires WalkValue(v, depth).tooDeep && depth <= MAX_SUBGRAPH_DEPTH
    ensures i < |Children(v)| && WalkValue(Children(v)[i], depth + 1).tooDeep
  {
    assert WalkAll(v, Children(v), depth + 1).tooDeep;
    hide WalkValue, WalkAll, Children;
    WalkAllStops(v, Children(v), depth + 1);
    i :| 0 <= i < |Children(v)| && WalkValue(Children(v)[i], depth + 1).tooDeep;
  }

  lemma PathThroughChild(v: Value, i: nat, rest: seq<nat>)
    requires i < |Children(v)|
    ensures At(v, [i] + rest) == At(Children(v)[i], rest)
  {
    hide Children;
    assert ([i] + rest)[1..] == rest;
  }

  lemma {:induction false} StoppedWalkHasDeepPath(v: Value, depth: nat) returns (path: seq<nat>)
    requires WalkValue(v, depth).tooDeep
    ensures At(v, path).Some? && depth + |path| > MAX_SUBGRAPH_DEPTH
    decreases v
  {
    if depth > MAX_SUBGRAPH_DEPTH {
      path := [];
    } else {
      var i := StoppedInChild(v, depth);
      hide *;
      var rest := StoppedWalkHasDeepPath(Children(v)[i], depth + 1);
      PathThroughChild(v, i, rest);
      path := [i] + rest;
    }
  }

  lemma LinkInChild(v: Value, depth: nat, path: seq<nat>, id: string)
    requires !WalkValue(v, depth).tooDeep && LinkAt(v, path, id) && path != []
    ensures path[0] < |Children(v)| && LinkAt(Children(v)[path[0]], path[1..], id)
    ensures WalkValue(v, depth) == WalkAll(v, Children(v), depth + 1)
  {
    hide WalkAll;
  }

  lemma LinkItself(v: Value, depth: nat, id: string)
    requires !WalkValue(v, depth).tooDeep && LinkAt(v, [], id)
    ensures id in WalkValue(v, depth).refs
  {
    hide WalkAll;
  }

  lemma {:induction false} WalkFindsLink(v: Value, depth: nat, path: seq<nat>, id: string)
    requires !WalkValue(v, depth).tooDeep && LinkAt(v, path, id)
    ensures id in WalkValue(v, depth).refs
    decreases |path|
  {
    hide *;
    if path == [] {
      LinkItself(v, depth, id);
    } else {
      LinkInChild(v, depth, path, id);
      WalkAllStops(v, Children(v), depth + 1);
      WalkFindsLink(Children(v)[path[0]], depth + 1, path[1..], id);
      WalkAllRefs(v, Children(v), depth + 1, id);
    }
  }

  lemma FoundInChild(v: Value, depth: nat, id: string) returns (i: nat)
    requires id in WalkValue(v, depth).refs && !IsLink(v)
    ensures i < |Children(v)| && id in WalkValue(Children(v)[i], depth + 1).refs
  {
    WalkDescends(v, depth, id);
    hide *;
    i := FoundAmong(v, Children(v), depth + 1, id);
  }

  lemma {:induction false} FoundAmong(parent: Value, cs: seq<Value>, depth: nat, id: string) returns (i: nat)
    requires (forall i :: 0 <= i < |cs| ==> cs[i] < parent) && id in WalkAll(parent, cs, depth).refs
    ensures i < |cs| && id in WalkValue(cs[i], depth).refs
    decreases |cs|
  {
    hide WalkValue;
    if id in WalkValue(cs[0], depth).refs {
      i := 0;
    } else {
      i := FoundAmong(parent, cs[1..], depth, id);
      i := i + 1;
    }
  }

  lemma WalkDescends(v: Value, depth: nat, id: string)
    requires id in WalkValue(v, depth).refs && !IsLink(v)
    ensures id in WalkAll(v, Children(v), depth + 1).refs
  {
    hide WalkAll, Children;
  }

  lemma LinkThroughChild(v: Value, i: nat, rest: seq<nat>, id: string)
    requires i < |Children(v)| && LinkAt(Children(v)[i], rest, id)
    ensures LinkAt(v, [i] + rest, id)
  {
    hide Children, IsLink, LinkTarget;
    assert ([i] + rest)[1..] == rest;
  }

  lemma {:induction false} FoundLinkHasPath(v: Value, depth: nat, id: string) returns (path: seq<nat>)
    requires id in WalkValue(v, depth).refs
    ensures LinkAt(v, path, id)
    decreases v
  {
    hide *;
    if IsLink(v) {
      path := [];
      LinkFound(v, depth, id);
    } else {
      var i := FoundInChild(v, depth, id);
      var rest := FoundLinkHasPath(Children(v)[i], depth + 1, id);
      LinkThroughChild(v, i, rest, id);
      path := [i] + rest;
    }
  }

  lemma LinkFound(v: Value, depth: nat, id: string)
    requires id in WalkValue(v, depth).refs && IsLink(v)
    ensures LinkAt(v, [], id)
  {
    hide WalkAll;
  }

  /**
   The walk stops exactly on values nested too deep; otherwise it reports exactly the
   links of the outer namespace.
   */
  lemma WalkMeetsReference(v: Value)
    ensures WalkValue(v, 0).tooDeep <==> NestedTooDeep(v)
    ensures forall id :: id in WalkValue(v, 0).refs ==> LinksTo(v, id)
    ensures !NestedTooDeep(v) ==> forall id :: LinksTo(v, id) ==> id in WalkValue(v, 0).refs
  {
    if WalkValue(v, 0).tooDeep {
      var path := StoppedWalkHasDeepPath(v, 0);
    }
    if NestedTooDeep(v) {
      var path :| At(v, path).Some? && |path| > MAX_SUBGRAPH_DEPTH;
      DeepPathStopsWalk(v, 0, path);
    }
    forall id | id in WalkValue(v, 0).refs
      ensures LinksTo(v, id)
    {
      var path := FoundLinkHasPath(v, 0, id);
    }
    if !WalkValue(v, 0).tooDeep {
      forall id | LinksTo(v, id)
        ensures id in WalkValue(v, 0).refs
      {
        var path :| LinkAt(v, path, id);
        WalkFindsLink(v, 0, path, id);
      }
    }
  }

  // ------------------------------------------------------------ shape by shape

  lemma LinksThroughChildren(v: Value, id: string)
    ensures LinksTo(v, id) <==>
              if IsLink(v) then LinkTarget(v) == id else exists i :: 0 <= i < |Children(v)| && LinksTo(Children(v)[i], id)
  {
    hide IsLink, LinkTarget;
    if path :| LinkAt(v, path, id) {
      if path != [] {
        assert LinkAt(Children(v)[path[0]], path[1..], id);
      }
    }
    if IsLink(v) && LinkTarget(v) == id {
      assert LinkAt(v, [], id);
    }
    if i :| 0 <= i < |Children(v)| && LinksTo(Children(v)[i], id) {
      var rest :| LinkAt(Children(v)[i], rest, id);
      LinkThroughChild(v, i, rest, id);
    }
    LinkHasNoChildren(v);
  }

  lemma ChildrenByShape(v: Value)
    ensures v.Array? ==> Children(v) == v.items
    ensures IsCallback(v) ==> Children(v) == []
    ensures v.Object? && !IsLink(v) && !IsCallback(v) ==>
              |Children(v)| == |v.fields| && forall i :: 0 <= i < |v.fields| ==> Children(v)[i] == v.fields[i].value
    ensures !v.Array? && !v.Object? ==> Children(v) == []
  {
  }

  lemma LinkHasNoChildren(v: Value)
    ensures IsLink(v) ==> Children(v) == []
  {
  }

  /** Which links count, by the shape of the value: a callback's do not, nor does what stands beside a `from_node`. */
  lemma LinksByShape(v: Value, id: string)
    ensures LinksTo(v, id) <==>
              match v
              case Array(items) => exists i :: 0 <= i < |items| && LinksTo(items[i], id)
              case Object(fields) =>
                var from := Get(fields, "from_node");
                if from.Some? && from.value.String? then from.value.s == id
                else Get(fields, "process_graph").None? && exists i :: 0 <= i < |fields| && LinksTo(fields[i].value, id)
              case _ => false
  {
    hide LinksTo;
    LinksThroughChildren(v, id);
    ChildrenByShape(v);
    hide Children;
  }

  ghost predicate ReachesDepth(v: Value, n: nat) {
    exists path :: At(v, path).Some? && |path| >= n
  }

  lemma DepthThroughChildren(v: Value, n: nat)
    requires n > 0
    ensures ReachesDepth(v, n) <==> exists i :: 0 <= i < |Children(v)| && ReachesDepth(Children(v)[i], n - 1)
  {
    hide Children;
    if path :| At(v, path).Some? && |path| >= n {
      assert At(Children(v)[path[0]], path[1..]).Some?;
    }
    if i :| 0 <= i < |Children(v)| && ReachesDepth(Children(v)[i], n - 1) {
      var rest :| At(Children(v)[i], rest).Some? && |rest| >= n - 1;
      PathThroughChild(v, i, rest);
      assert At(v, [i] + rest).Some?;
    }
  }

  /** How deep a value is nested, by its shape; nothing is nested in links and callbacks. */
  lemma DepthByShape(v: Value, n: nat)
    ensures NestedTooDeep(v) <==> ReachesDepth(v, 65)
    ensures ReachesDepth(v, n + 1) <==>
              match v
              case Array(items) => exists i :: 0 <= i < |items| && ReachesDepth(items[i], n)
              case Object(fields) =>
                var from := Get(fields, "from_node");
                && (from.None? || !from.value.String?) && Get(fields, "process_graph").None?
                && exists i :: 0 <= i < |fields| && ReachesDepth(fields[i].value, n)
              case _ => false
  {
    DepthThroughChildren(v, n + 1);
    ChildrenByShape(v);
    LinkHasNoChildren(v);
    hide Children, At;
  }

  // ------------------------------------------------------- callback isolation

  /** `w` is `v` with the bodies under some `process_graph` keys replaced by anything. */
  predicate SameButCallbackBodies(v: Value, w: Value)
    decreases v
  {
    match v
    case Array(items) =>
      w.Array? && |w.items| == |items| &&
      forall i :: 0 <= i < |items| ==> SameButCallbackBodies(items[i], w.items[i])
    case Object(fields) =>
      w.Object? && |w.fields| == |fields| &&
      forall i :: 0 <= i < |fields| ==>
        && w.fields[i].key == fields[i].key
        && (fields[i].key == "process_graph" || SameButCallbackBodies(fields[i].value, w.fields[i].value))
    case _ => v == w
  }

  lemma {:induction false} SameFieldLookup(f: seq<Field<real>>, h: seq<Field<real>>, key: string)
    requires |f| == |h| && key != "process_graph"
    requires forall i :: 0 <= i < |f| ==>
      && h[i].key == f[i].key
      && (f[i].key == "process_graph" || SameButCallbackBodies(f[i].value, h[i].value))
    ensures Get(f, key).Some? <==> Get(h, key).Some?
    ensures Get(f, key).Some? ==> SameButCallbackBodies(Get(f, key).value, Get(h, key).value)
  {
    if f != [] && f[0].key != key {
      SameFieldLookup(f[1..], h[1..], key);
    }
  }

  lemma SameKind(v: Value, w: Value)
    requires SameButCallbackBodies(v, w)
    ensures IsLink(v) <==> IsLink(w)
    ensures IsLink(v) ==> LinkTarget(v) == LinkTarget(w)
    ensures IsCallback(v) <==> IsCallback(w)
    ensures |Children(v)| == |Children(w)|
    ensures forall i :: 0 <= i < |Children(v)| ==> SameButCallbackBodies(Children(v)[i], Children(w)[i])
  {
    if v.Object? {
      SameFieldLookup(v.fields, w.fields, "from_node");
      assert Keys(v.fields) == Keys(w.fields);
      if !IsLink(v) && !IsCallback(v) {
        forall i | 0 <= i < |v.fields|
          ensures v.fields[i].key != "process_graph"
        {
          assert Keys(v.fields)[i] == v.fields[i].key;
        }
      }
    }
  }

  /** Replacing callback bodies changes neither the links found nor the depth verdict. */
  lemma {:induction false} CallbackBodiesAreInvisible(v: Value, w: Value, depth: nat)
    requires SameButCallbackBodies(v, w)
    ensures WalkValue(v, depth) == WalkValue(w, depth)
    decreases v, 1, 0
  {
    SameKind(v, w);
    if depth <= MAX_SUBGRAPH_DEPTH && !IsLink(v) {
      CallbackBodiesInvisibleInAll(v, w, Children(v), Children(w), depth + 1);
    }
  }

  lemma {:induction false} CallbackBodiesInvisibleInAll(v: Value, w: Value, cs: seq<Value>, ds: seq<Value>, depth: nat)
    requires |cs| == |ds|
    requires forall i :: 0 <= i < |cs| ==> cs[i] < v && ds[i] < w && SameButCallbackBodies(cs[i], ds[i])
    ensures WalkAll(v, cs, depth) == WalkAll(w, ds, depth)
    decreases v, 0, |cs|
  {
    if cs != [] {
      CallbackBodiesAreInvisible(cs[0], ds[0], depth);
      CallbackBodiesInvisibleInAll(v, w, cs[1..], ds[1..], depth);
    }
  }
}
