/**
 The memory budget of the block executor (apps/orbit-openeo/src/block_executor.rs):
 reservations by compare-and-swap on a shared counter, from any number of threads.

 A step is one atomic access. `max` is the largest machine word; bytes and the cap are words.
 */
module MemoryBudget {
  import opened Arithmetic

  /** A call to reserve that has read the counter as `seen`. */
  datatype Attempt = Attempt(bytes: nat, seen: nat)

  datatype Budget = Budget(max: nat, cap: nat)

  /** The shared counter, the calls under way by thread, and the bytes of the guards alive. */
  datatype State = State(used: nat, calls: map<nat, Attempt>, guards: seq<nat>)

  datatype Step =
    | Load(thread: nat, bytes: nat)
    | Commit(thread: nat)
    | Retry(thread: nat)
    | Reject(thread: nat)
    | Release(guard: nat)

  const Empty := State(0, map[], [])

  function SaturatingAdd(b: Budget, x: nat, y: nat): nat {
    Min(x + y, b.max)
  }

  /** The counter after subtracting, wrapping around below zero. */
  function WrappingSub(b: Budget, x: nat, y: nat): nat {
    (x - y) % (b.max + 1)
  }

  function Next(b: Budget, call: Attempt): nat {
    SaturatingAdd(b, call.seen, call.bytes)
  }

  function Without<T>(s: seq<T>, i: nat): seq<T>
    requires i < |s|
  {
    s[..i] + s[i + 1..]
  }

  /** One atomic step; a weak compare-and-swap may fail with the counter unchanged. */
  predicate Moves(b: Budget, s: State, step: Step, s': State) {
    match step
    case Load(t, bytes) =>
      t !in s.calls && bytes <= b.max && s' == s.(calls := s.calls[t := Attempt(bytes, s.used)])
    case Commit(t) =>
      && t in s.calls && Next(b, s.calls[t]) <= b.cap && s.used == s.calls[t].seen
      && s' == State(Next(b, s.calls[t]), s.calls - {t}, s.guards + [s.calls[t].bytes])
    case Retry(t) =>
      && t in s.calls && Next(b, s.calls[t]) <= b.cap
      && s' == s.(calls := s.calls[t := s.calls[t].(seen := s.used)])
    case Reject(t) =>
      t in s.calls && Next(b, s.calls[t]) > b.cap && s' == s.(calls := s.calls - {t})
    case Release(g) =>
      && g < |s.guards|
      && s' == s.(used := WrappingSub(b, s.used, s.guards[g]), guards := Without(s.guards, g))
  }

  /** Any interleaving of any threads, from an unused budget. */
  predicate IsRun(b: Budget, states: seq<State>, steps: seq<Step>) {
    && b.cap <= b.max
    && |states| == |steps| + 1
    && states[0] == Empty
    && forall i :: 0 <= i < |steps| ==> Moves(b, states[i], steps[i], states[i + 1])
  }

  // --------------------------------------------------------------- accounting

  function Sum(s: seq<nat>): nat {
    if s == [] then 0 else Sum(s[..|s| - 1]) + s[|s| - 1]
  }

  lemma {:induction false} SumConcat(s: seq<nat>, t: seq<nat>)
    ensures Sum(s + t) == Sum(s) + Sum(t)
    decreases |t|
  {
    if t == [] {
      assert s + t == s;
    } else {
      assert (s + t)[..|s + t| - 1] == s + t[..|t| - 1];
      SumConcat(s, t[..|t| - 1]);
    }
  }

  lemma SumWithout(s: seq<nat>, i: nat)
    requires i < |s|
    ensures Sum(s) == Sum(Without(s, i)) + s[i]
  {
    var front, rest := s[..i], s[i + 1..];
    assert s == front + [s[i]] + rest;
    SumConcat(front + [s[i]], rest);
    SumAppend(front, s[i]);
    SumConcat(front, rest);
    hide Sum;
  }

  lemma SumAppend(s: seq<nat>, x: nat)
    ensures Sum(s + [x]) == Sum(s) + x
  {
    assert (s + [x])[..|s|] == s;
  }

  /** The counter is the bytes of the guards alive, and within the cap. */
  predicate Exact(b: Budget, s: State) {
    s.used == Sum(s.guards) <= b.cap
  }

  lemma StepKeepsExact(b: Budget, s: State, step: Step, s': State)
    requires b.cap < b.max && Exact(b, s) && Moves(b, s, step, s')
    ensures Exact(b, s')
  {
    match step
    case Commit(t) =>
      SumAppend(s.guards, s.calls[t].bytes);
    case Release(g) =>
      SumWithout(s.guards, g);
      NoWrap(b, s.used, s.guards[g]);
      hide WrappingSub, Sum;
    case _ =>
  }

  lemma NoWrap(b: Budget, x: nat, y: nat)
    requires y <= x <= b.max
    ensures WrappingSub(b, x, y) == x - y
  {
    QuotientIs(x - y, b.max + 1, 0);
  }

  lemma {:induction false} RunIsExact(b: Budget, states: seq<State>, steps: seq<Step>, i: nat)
    requires b.cap < b.max && IsRun(b, states, steps) && i < |states|
    ensures Exact(b, states[i])
  {
    if i > 0 {
      RunIsExact(b, states, steps, i - 1);
      StepKeepsExact(b, states[i - 1], steps[i - 1], states[i]);
    }
  }

  /** With the largest cap, saturation lets a second reservation through uncounted. */
  lemma LargestCapOvercommits(b: Budget) returns (states: seq<State>, steps: seq<Step>)
    requires b.cap == b.max > 0
    ensures IsRun(b, states, steps)
    ensures Sum(states[|states| - 1].guards) > b.cap && !Exact(b, states[|states| - 1])
  {
    steps := [Load(0, b.max), Commit(0), Load(0, 1), Commit(0)];
    var s1 := Empty.(calls := map[0 := Attempt(b.max, 0)]);
    var s2 := State(b.max, map[], [b.max]);
    var s3 := s2.(calls := map[0 := Attempt(1, b.max)]);
    var s4 := State(b.max, map[], [b.max, 1]);
    states := [Empty, s1, s2, s3, s4];
    assert s1.calls - {0} == map[] && s3.calls - {0} == map[];
    assert Moves(b, Empty, steps[0], s1);
    assert Moves(b, s1, steps[1], s2);
    assert Moves(b, s2, steps[2], s3);
    assert Moves(b, s3, steps[3], s4);
    assert [b.max, 1][..1] == [b.max] && [b.max][..0] == [];
    assert Sum([b.max]) == b.max;
  }

  /** Accounting is exact over every run precisely when the cap is below the largest word. */
  lemma ExactIffCapBelowMax(b: Budget)
    requires b.cap <= b.max && b.max > 0
    ensures b.cap < b.max <==>
              forall states, steps, i :: IsRun(b, states, steps) && 0 <= i < |states| ==> Exact(b, states[i])
  {
    if b.cap < b.max {
      forall states, steps, i | IsRun(b, states, steps) && 0 <= i < |states|
        ensures Exact(b, states[i])
      {
        RunIsExact(b, states, steps, i);
      }
    } else {
      var states, steps := LargestCapOvercommits(b);
    }
  }

  // ------------------------------------------------------------- linearisation

  /** The call of thread `t` under way at `i` saw the counter of state `j`, read since its load at `l`. */
  predicate SawAt(states: seq<State>, steps: seq<Step>, t: nat, l: nat, j: nat, i: nat)
    requires |states| == |steps| + 1
  {
    && l <= j < i < |states| && t in states[i].calls
    && steps[l] == Load(t, states[i].calls[t].bytes)
    && states[j].used == states[i].calls[t].seen
    && forall k :: l < k <= i ==> t in states[k].calls
  }

  lemma {:induction false} EveryCallSaw(b: Budget, states: seq<State>, steps: seq<Step>, t: nat, i: nat) returns (l: nat, j: nat)
    requires IsRun(b, states, steps) && i < |states| && t in states[i].calls
    ensures SawAt(states, steps, t, l, j, i)
  {
    var step := steps[i - 1];
    assert Moves(b, states[i - 1], step, states[i]);
    if step.Load? && step.thread == t {
      l, j := i - 1, i - 1;
    } else {
      l, j := EveryCallSaw(b, states, steps, t, i - 1);
      if step == Retry(t) {
        j := i - 1;
      }
    }
  }

  /**
   A rejection is justified, and what it reports available is exact, at some moment of the
   call: between its first read and its answer, the guards alive left too little room.
   */
  lemma RejectionWasJustified(b: Budget, states: seq<State>, steps: seq<Step>, i: nat) returns (l: nat, j: nat)
    requires b.cap < b.max && IsRun(b, states, steps) && i < |steps| && steps[i].Reject?
    ensures steps[i].thread in states[i].calls
    ensures var call := states[i].calls[steps[i].thread];
            && SawAt(states, steps, steps[i].thread, l, j, i)
            && b.cap - call.seen == b.cap - Sum(states[j].guards) < call.bytes
  {
    assert Moves(b, states[i], steps[i], states[i + 1]);
    l, j := EveryCallSaw(b, states, steps, steps[i].thread, i);
    RunIsExact(b, states, steps, j);
  }

  /** A call that nothing interrupts succeeds exactly when the guards alive leave room. */
  lemma AloneSucceedsIffRoom(b: Budget, s: State, t: nat, bytes: nat)
    requires b.cap < b.max && Exact(b, s) && bytes <= b.max && t !in s.calls
    ensures var loaded := s.(calls := s.calls[t := Attempt(bytes, s.used)]);
            && Moves(b, s, Load(t, bytes), loaded)
            && ((exists s' :: Moves(b, loaded, Commit(t), s')) <==> Sum(s.guards) + bytes <= b.cap)
            && ((exists s' :: Moves(b, loaded, Reject(t), s')) <==> Sum(s.guards) + bytes > b.cap)
            && forall s' :: Moves(b, loaded, Reject(t), s') ==> s' == s
  {
    var loaded := s.(calls := s.calls[t := Attempt(bytes, s.used)]);
    assert loaded.calls - {t} == s.calls;
    if Sum(s.guards) + bytes <= b.cap {
      assert Moves(b, loaded, Commit(t), State(s.used + bytes, s.calls, s.guards + [bytes]));
    } else {
      assert Moves(b, loaded, Reject(t), s);
    }
  }
}
