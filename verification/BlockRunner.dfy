/**
 Bounded-concurrency execution of blocks (apps/orbit-openeo/src/block_executor.rs, `run_blocks`).

 The spawning loop, the blocking tasks and whoever holds the cancel token take steps in any
 order; tasks go on after the loop has returned. A progress callback is assumed present.
 */
module BlockRunner {
  import opened Wrappers
  import opened Arithmetic

  /** What the worker does on a block. */
  datatype Work<+O> = Value(value: O) | Fails(message: string) | Panics(message: string)

  datatype BlockError = WorkerFailed(message: string) | Cancelled

  /** How a task ended: without calling the worker because the token was tripped, or with it. */
  datatype End<+O> = Skipped | Ran(work: Work<O>)

  datatype Task<+O> = Queued | Working | Counted(n: nat) | Finished(end: End<O>)

  datatype Main<+O> = Spawning | Acquiring | Awaiting(out: seq<O>) | Returned(result: Result<seq<O>, BlockError>)

  datatype State<+O> = State(main: Main<O>, tasks: seq<Task<O>>, permits: nat, cancelled: bool,
                             done: nat, calls: seq<nat>, reports: seq<nat>)

  datatype Config<!O> = Config(total: nat, nThreads: nat, worker: nat -> Work<O>)

  datatype Step = Trip | MainMoves | TaskMoves(id: nat)

  /** The text by which a skipped task is recognised. */
  const CancelledText := "cancelled"

  function Permits<O>(c: Config<O>): nat {
    Max(c.nThreads, 1)
  }

  function Start<O>(c: Config<O>): State<O> {
    State(Spawning, [], Permits(c), false, 0, [], [])
  }

  /** What awaiting a task's handle makes of its end. */
  function Joined<O>(end: End<O>): Result<O, BlockError> {
    match end
    case Skipped => Failure(Cancelled)
    case Ran(Value(v)) => Success(v)
    case Ran(Fails(e)) => if e == CancelledText then Failure(Cancelled) else Failure(WorkerFailed(e))
    case Ran(Panics(e)) => Failure(WorkerFailed(e))
  }

  function Gather<O>(out: seq<O>, joined: Result<O, BlockError>): Main<O> {
    match joined
    case Success(v) => Awaiting(out + [v])
    case Failure(e) => Returned(Failure(e))
  }

  /** The spawning loop can move unless it waits for a permit or for a task's end. */
  predicate MainReady<O>(c: Config<O>, s: State<O>) {
    match s.main
    case Spawning => true
    case Acquiring => s.permits > 0
    case Awaiting(out) => |out| == c.total || (|out| < |s.tasks| && s.tasks[|out|].Finished?)
    case Returned(_) => false
  }

  /** The spawning loop: check the token, acquire a permit and spawn, then await in order. */
  function MainMove<O>(c: Config<O>, s: State<O>): State<O>
    requires MainReady(c, s)
  {
    match s.main
    case Spawning =>
      if |s.tasks| == c.total then s.(main := Awaiting([]))
      else if s.cancelled then s.(main := Returned(Failure(Cancelled)))
      else s.(main := Acquiring)
    case Acquiring => s.(main := Spawning, permits := s.permits - 1, tasks := s.tasks + [Queued])
    case Awaiting(out) =>
      if |out| == c.total then s.(main := Returned(Success(out)))
      else s.(main := Gather(out, Joined(s.tasks[|out|].end)))
  }

  predicate TaskReady<O>(s: State<O>, id: nat) {
    id < |s.tasks| && !s.tasks[id].Finished?
  }

  function Finish<O>(s: State<O>, id: nat, end: End<O>): State<O>
    requires TaskReady(s, id)
  {
    s.(tasks := s.tasks[id := Finished(end)], permits := s.permits + 1)
  }

  /** A task: check the token, call the worker, count, report, release the permit. */
  function TaskMove<O>(c: Config<O>, s: State<O>, id: nat): State<O>
    requires TaskReady(s, id)
  {
    match s.tasks[id]
    case Queued =>
      if s.cancelled then Finish(s, id, Skipped)
      else s.(tasks := s.tasks[id := Working], calls := s.calls + [id])
    case Working =>
      if c.worker(id).Panics? then Finish(s, id, Ran(c.worker(id)))
      else s.(tasks := s.tasks[id := Counted(s.done + 1)], done := s.done + 1)
    case Counted(n) => Finish(s, id, Ran(c.worker(id))).(reports := s.reports + [n])
  }

  predicate Moves<O(==)>(c: Config<O>, s: State<O>, step: Step, s': State<O>) {
    match step
    case Trip => s' == s.(cancelled := true)
    case MainMoves => MainReady(c, s) && s' == MainMove(c, s)
    case TaskMoves(id) => TaskReady(s, id) && s' == TaskMove(c, s, id)
  }

  predicate IsRun<O(==)>(c: Config<O>, states: seq<State<O>>, steps: seq<Step>) {
    && |states| == |steps| + 1
    && states[0] == Start(c)
    && forall i :: 0 <= i < |steps| ==> Moves(c, states[i], steps[i], states[i + 1])
  }

  // ----------------------------------------------------------------- reference

  /** The result of running the blocks from `out` on one after the other. */
  function Sequential<O>(c: Config<O>, out: seq<O>): Result<seq<O>, BlockError>
    decreases c.total - |out|
  {
    if |out| >= c.total then Success(out)
    else
      match Joined(Ran(c.worker(|out|)))
      case Success(v) => Sequential(c, out + [v])
      case Failure(e) => Failure(e)
  }

  // ---------------------------------------------------------------- invariants

  predicate Distinct(s: seq<nat>) {
    forall i, j :: 0 <= i < j < |s| ==> s[i] != s[j]
  }

  /** Tasks that hold a permit. */
  function Busy<O>(tasks: seq<Task<O>>): set<nat> {
    set i: nat | i < |tasks| && !tasks[i].Finished?
  }

  /** Tasks that have counted themselves. */
  function Done<O>(tasks: seq<Task<O>>): set<nat> {
    set i: nat | i < |tasks| && (tasks[i].Counted? || (tasks[i].Finished? && tasks[i].end.Ran? && !tasks[i].end.work.Panics?))
  }

  /** Tasks that have counted themselves and not yet reported. */
  function Unreported<O>(tasks: seq<Task<O>>): set<nat> {
    set i: nat | i < |tasks| && tasks[i].Counted?
  }

  predicate Called<O>(t: Task<O>) {
    t.Working? || t.Counted? || (t.Finished? && t.end.Ran?)
  }

  ghost predicate PermitsAccounted<O>(c: Config<O>, s: State<O>) {
    |Busy(s.tasks)| + s.permits == Permits(c)
  }

  ghost predicate CallsAccounted<O>(c: Config<O>, s: State<O>) {
    && Distinct(s.calls)
    && (forall i: nat :: i in s.calls <==> i < |s.tasks| && Called(s.tasks[i]))
    && (forall i :: 0 <= i < |s.tasks| && s.tasks[i].Finished? && s.tasks[i].end.Ran? ==> s.tasks[i].end.work == c.worker(i))
    && (forall i :: 0 <= i < |s.tasks| && s.tasks[i].Counted? ==> !c.worker(i).Panics?)
    && (forall i :: 0 <= i < |s.tasks| && s.tasks[i] == Finished(Skipped) ==> s.cancelled)
  }

  ghost predicate ReportsAccounted<O>(s: State<O>) {
    && |Done(s.tasks)| == s.done == |s.reports| + |Unreported(s.tasks)|
    && Distinct(s.reports)
    && (forall n :: n in s.reports ==> 1 <= n <= s.done)
    && (forall i :: 0 <= i < |s.tasks| && s.tasks[i].Counted? ==> 1 <= s.tasks[i].n <= s.done && s.tasks[i].n !in s.reports)
    && (forall i, j :: 0 <= i < j < |s.tasks| && s.tasks[i].Counted? && s.tasks[j].Counted? ==> s.tasks[i].n != s.tasks[j].n)
  }

  /** All handles before `out`'s end gave its values. */
  predicate Gathered<O(==)>(c: Config<O>, s: State<O>, out: seq<O>) {
    && |s.tasks| == c.total && |out| <= c.total
    && forall i :: 0 <= i < |out| ==> s.tasks[i] == Finished(Ran(Value(out[i])))
  }

  ghost predicate MainInv<O>(c: Config<O>, s: State<O>) {
    match s.main
    case Spawning => |s.tasks| <= c.total
    case Acquiring => |s.tasks| < c.total
    case Awaiting(out) => Gathered(c, s, out) && Sequential(c, out) == Sequential(c, [])
    case Returned(Success(out)) => Gathered(c, s, out) && |out| == c.total && Sequential(c, []) == Success(out)
    case Returned(Failure(e)) => Sequential(c, []) == Failure(e) || (e == Cancelled && s.cancelled)
  }

  ghost predicate Inv<O>(c: Config<O>, s: State<O>) {
    PermitsAccounted(c, s) && CallsAccounted(c, s) && ReportsAccounted(s) && MainInv(c, s)
  }

  lemma MainKeepsPermits<O>(c: Config<O>, s: State<O>)
    requires PermitsAccounted(c, s) && MainReady(c, s)
    ensures PermitsAccounted(c, MainMove(c, s))
  {
    if s.main.Acquiring? {
      SpawnedIsBusy(s.tasks);
    }
    hide Busy;
  }

  lemma SpawnedIsBusy<O>(tasks: seq<Task<O>>)
    ensures |Busy(tasks + [Queued])| == |Busy(tasks)| + 1
  {
    assert Busy(tasks + [Queued]) == Busy(tasks) + {|tasks|};
  }

  lemma BusyAfter<O>(tasks: seq<Task<O>>, id: nat, t: Task<O>)
    requires id < |tasks| && !tasks[id].Finished?
    ensures |Busy(tasks[id := t])| == if t.Finished? then |Busy(tasks)| - 1 else |Busy(tasks)|
  {
    assert id in Busy(tasks);
    assert Busy(tasks[id := t]) == if t.Finished? then Busy(tasks) - {id} else Busy(tasks);
  }

  lemma TaskKeepsPermits<O>(c: Config<O>, s: State<O>, id: nat)
    requires PermitsAccounted(c, s) && TaskReady(s, id)
    ensures PermitsAccounted(c, TaskMove(c, s, id))
  {
    hide Busy;
    BusyAfter(s.tasks, id, TaskMove(c, s, id).tasks[id]);
  }

  lemma PermitsKept<O>(c: Config<O>, s: State<O>, step: Step, s': State<O>)
    requires PermitsAccounted(c, s) && Moves(c, s, step, s')
    ensures PermitsAccounted(c, s')
  {
    match step
    case Trip =>
    case MainMoves =>
      hide PermitsAccounted, MainMove;
      MainKeepsPermits(c, s);
    case TaskMoves(id) =>
      hide PermitsAccounted, TaskMove;
      TaskKeepsPermits(c, s, id);
  }

  lemma MainKeepsCalls<O>(c: Config<O>, s: State<O>)
    requires CallsAccounted(c, s) && MainReady(c, s)
    ensures CallsAccounted(c, MainMove(c, s))
  {
  }

  lemma TaskKeepsCalls<O>(c: Config<O>, s: State<O>, id: nat)
    requires CallsAccounted(c, s) && TaskReady(s, id)
    ensures CallsAccounted(c, TaskMove(c, s, id))
  {
  }

  lemma CallsKept<O>(c: Config<O>, s: State<O>, step: Step, s': State<O>)
    requires CallsAccounted(c, s) && Moves(c, s, step, s')
    ensures CallsAccounted(c, s')
  {
    match step
    case Trip =>
    case MainMoves =>
      hide CallsAccounted, MainMove;
      MainKeepsCalls(c, s);
    case TaskMoves(id) =>
      hide CallsAccounted, TaskMove;
      TaskKeepsCalls(c, s, id);
  }

  lemma MainKeepsReports<O>(c: Config<O>, s: State<O>)
    requires ReportsAccounted(s) && MainReady(c, s)
    ensures ReportsAccounted(MainMove(c, s))
  {
    hide Distinct;
    var s' := MainMove(c, s);
    assert Done(s'.tasks) == Done(s.tasks);
    assert Unreported(s'.tasks) == Unreported(s.tasks);
  }

  lemma TaskKeepsReports<O>(c: Config<O>, s: State<O>, id: nat)
    requires ReportsAccounted(s) && CallsAccounted(c, s) && TaskReady(s, id)
    ensures ReportsAccounted(TaskMove(c, s, id))
  {
    hide ReportsAccounted;
    var s' := TaskMove(c, s, id);
    match s.tasks[id]
    case Queued =>
      SilentMove(s, id, s');
    case Working =>
      if c.worker(id).Panics? {
        SilentMove(s, id, s');
      } else {
        CountingMove(s, id, s');
      }
    case Counted(n) =>
      ReportingMove(s, id, s', c.worker(id));
  }

  lemma ReportsKept<O>(c: Config<O>, s: State<O>, step: Step, s': State<O>)
    requires ReportsAccounted(s) && CallsAccounted(c, s) && Moves(c, s, step, s')
    ensures ReportsAccounted(s')
  {
    match step
    case Trip =>
    case MainMoves =>
      hide ReportsAccounted, CallsAccounted, MainMove;
      MainKeepsReports(c, s);
    case TaskMoves(id) =>
      hide ReportsAccounted, CallsAccounted, TaskMove;
      TaskKeepsReports(c, s, id);
  }

  lemma SilentMove<O>(s: State<O>, id: nat, s': State<O>)
    requires ReportsAccounted(s) && TaskReady(s, id) && (s.tasks[id].Queued? || s.tasks[id].Working?)
    requires |s'.tasks| == |s.tasks| && s'.tasks == s.tasks[id := s'.tasks[id]] && s'.done == s.done && s'.reports == s.reports
    requires s'.tasks[id].Working? || (s'.tasks[id].Finished? && (s'.tasks[id].end.Skipped? || s'.tasks[id].end.work.Panics?))
    ensures ReportsAccounted(s')
  {
    hide Distinct;
    assert Done(s'.tasks) == Done(s.tasks);
    assert Unreported(s'.tasks) == Unreported(s.tasks);
    hide Done, Unreported;
  }

  lemma CountingMove<O>(s: State<O>, id: nat, s': State<O>)
    requires ReportsAccounted(s) && TaskReady(s, id) && s.tasks[id].Working?
    requires s'.tasks == s.tasks[id := Counted(s.done + 1)] && s'.done == s.done + 1 && s'.reports == s.reports
    ensures ReportsAccounted(s')
  {
    hide Distinct;
    OneMoreCounted(s.tasks, id, s.done + 1);
    hide Done, Unreported;
  }

  lemma OneMoreCounted<O>(tasks: seq<Task<O>>, id: nat, n: nat)
    requires id < |tasks| && tasks[id].Working?
    ensures |Done(tasks[id := Counted(n)])| == |Done(tasks)| + 1
    ensures |Unreported(tasks[id := Counted(n)])| == |Unreported(tasks)| + 1
  {
    assert Done(tasks[id := Counted(n)]) == Done(tasks) + {id};
    assert Unreported(tasks[id := Counted(n)]) == Unreported(tasks) + {id};
  }

  lemma ReportingMove<O>(s: State<O>, id: nat, s': State<O>, work: Work<O>)
    requires ReportsAccounted(s) && TaskReady(s, id) && s.tasks[id].Counted? && !work.Panics?
    requires s'.tasks == s.tasks[id := Finished(Ran(work))] && s'.done == s.done && s'.reports == s.reports + [s.tasks[id].n]
    ensures ReportsAccounted(s')
  {
    OneLessUnreported(s.tasks, id, work);
    hide Done, Unreported;
  }

  lemma OneLessUnreported<O>(tasks: seq<Task<O>>, id: nat, work: Work<O>)
    requires id < |tasks| && tasks[id].Counted? && !work.Panics?
    ensures |Done(tasks[id := Finished(Ran(work))])| == |Done(tasks)|
    ensures |Unreported(tasks[id := Finished(Ran(work))])| == |Unreported(tasks)| - 1
  {
    assert id in Unreported(tasks);
    assert Done(tasks[id := Finished(Ran(work))]) == Done(tasks);
    assert Unreported(tasks[id := Finished(Ran(work))]) == Unreported(tasks) - {id};
  }

  lemma MainKeepsMain<O>(c: Config<O>, s: State<O>)
    requires CallsAccounted(c, s) && MainInv(c, s) && MainReady(c, s)
    ensures MainInv(c, MainMove(c, s))
  {
    hide Distinct, Called;
  }

  lemma TaskKeepsMain<O>(c: Config<O>, s: State<O>, id: nat)
    requires MainInv(c, s) && TaskReady(s, id)
    ensures MainInv(c, TaskMove(c, s, id))
  {
    hide Sequential;
  }

  lemma MainKept<O>(c: Config<O>, s: State<O>, step: Step, s': State<O>)
    requires CallsAccounted(c, s) && MainInv(c, s) && Moves(c, s, step, s')
    ensures MainInv(c, s')
  {
    hide CallsAccounted, MainMove, TaskMove, Sequential;
    match step
    case Trip =>
    case MainMoves => MainKeepsMain(c, s);
    case TaskMoves(id) => TaskKeepsMain(c, s, id);
  }

  lemma {:induction false} RunKeepsInv<O>(c: Config<O>, states: seq<State<O>>, steps: seq<Step>, i: nat)
    requires IsRun(c, states, steps) && i < |states|
    ensures Inv(c, states[i])
  {
    if i == 0 {
      assert Busy(states[0].tasks) == {} && Done(states[0].tasks) == {} && Unreported(states[0].tasks) == {};
    } else {
      RunKeepsInv(c, states, steps, i - 1);
      hide PermitsAccounted, CallsAccounted, ReportsAccounted, MainInv;
      PermitsKept(c, states[i - 1], steps[i - 1], states[i]);
      CallsKept(c, states[i - 1], steps[i - 1], states[i]);
      ReportsKept(c, states[i - 1], steps[i - 1], states[i]);
      MainKept(c, states[i - 1], steps[i - 1], states[i]);
    }
  }

  // -------------------------------------------------------------- main results

  /** In no state of any run do more than max(n_threads, 1) tasks hold the worker. */
  lemma BoundedConcurrency<O>(c: Config<O>, states: seq<State<O>>, steps: seq<Step>, i: nat)
    requires IsRun(c, states, steps) && i < |states|
    ensures var working := set t: nat | t < |states[i].tasks| && (states[i].tasks[t].Working? || states[i].tasks[t].Counted?);
            |working| <= Max(c.nThreads, 1)
  {
    RunKeepsInv(c, states, steps, i);
    var working := set t: nat | t < |states[i].tasks| && (states[i].tasks[t].Working? || states[i].tasks[t].Counted?);
    SubsetIsSmaller(working, Busy(states[i].tasks));
  }

  lemma {:induction false} SubsetIsSmaller<T>(a: set<T>, b: set<T>)
    requires a <= b
    ensures |a| <= |b|
    ensures |a| == |b| ==> a == b
  {
    assert b == a + (b - a);
    assert |b| == |a| + |b - a|;
  }

  lemma DistinctFills(s: seq<nat>, lo: nat, n: nat)
    requires Distinct(s) && |s| == n && forall x :: x in s ==> lo <= x < lo + n
    ensures forall x: nat :: x in s <==> lo <= x < lo + n
  {
    var elements := Elements(s);
    SubsetIsSmaller(elements, Range(lo, n));
    assert forall x: nat :: x in s <==> x in elements;
  }

  function Elements(s: seq<nat>): (r: set<nat>)
    requires Distinct(s)
    ensures |r| == |s| && forall x :: x in r <==> x in s
  {
    if s == [] then {}
    else
      var front, last := s[..|s| - 1], s[|s| - 1];
      assert s == front + [last];
      Elements(front) + {last}
  }

  function Range(lo: nat, n: nat): (r: set<nat>)
    ensures |r| == n && forall x :: x in r <==> lo <= x < lo + n
  {
    if n == 0 then {} else Range(lo, n - 1) + {lo + n - 1}
  }

  /**
   Whatever the schedule, the result is that of running the blocks one after the other,
   or `Cancelled` after the token was tripped.
   */
  lemma ResultIsSequential<O>(c: Config<O>, states: seq<State<O>>, steps: seq<Step>, i: nat)
    requires IsRun(c, states, steps) && i < |states| && states[i].main.Returned?
    ensures var r := states[i].main.result;
            r == Sequential(c, []) || (r == Failure(Cancelled) && Trip in steps[..i])
  {
    RunKeepsInv(c, states, steps, i);
    TrippedByStep(c, states, steps, i);
  }

  lemma {:induction false} TrippedByStep<O>(c: Config<O>, states: seq<State<O>>, steps: seq<Step>, i: nat)
    requires IsRun(c, states, steps) && i < |states|
    ensures states[i].cancelled ==> Trip in steps[..i]
  {
    if i > 0 {
      TrippedByStep(c, states, steps, i - 1);
      assert Moves(c, states[i - 1], steps[i - 1], states[i]);
      assert steps[..i] == steps[..i - 1] + [steps[i - 1]];
    }
  }

  /** When every handle gave a value, every task has counted, reported and given its permit back. */
  lemma AllDone<O>(c: Config<O>, tasks: seq<Task<O>>, out: seq<O>)
    requires |tasks| == |out| == c.total && forall i :: 0 <= i < c.total ==> tasks[i] == Finished(Ran(Value(out[i])))
    ensures |Done(tasks)| == c.total && Unreported(tasks) == {} && Busy(tasks) == {}
  {
    assert Done(tasks) == Range(0, c.total);
  }

  /**
   An `Ok` answer holds the worker's value for every block; the worker was called exactly
   once on each, the progress counts are 1 to the total in some order, and all permits are back.
   */
  lemma OkMeansEveryBlockOnce<O>(c: Config<O>, states: seq<State<O>>, steps: seq<Step>, i: nat)
    requires IsRun(c, states, steps) && i < |states|
    requires states[i].main.Returned? && states[i].main.result.Success?
    ensures var out := states[i].main.result.value;
            |out| == c.total && forall k :: 0 <= k < c.total ==> c.worker(k) == Value(out[k])
    ensures Distinct(states[i].calls) && forall k: nat :: k in states[i].calls <==> k < c.total
    ensures Distinct(states[i].reports) && forall n: nat :: n in states[i].reports <==> 1 <= n <= c.total
    ensures states[i].permits == Max(c.nThreads, 1)
  {
    RunKeepsInv(c, states, steps, i);
    hide IsRun, Sequential, Done, Unreported, Busy, Distinct;
    var s := states[i];
    AllDone(c, s.tasks, s.main.result.value);
    DistinctFills(s.reports, 1, c.total);
  }

  /** Until the loop returns, it or some task can move, so no schedule deadlocks. */
  lemma NeverStuck<O>(c: Config<O>, states: seq<State<O>>, steps: seq<Step>, i: nat)
    requires IsRun(c, states, steps) && i < |states| && !states[i].main.Returned?
    ensures MainReady(c, states[i]) || exists id :: TaskReady(states[i], id)
  {
    RunKeepsInv(c, states, steps, i);
    var s := states[i];
    match s.main
    case Acquiring =>
      if s.permits == 0 {
        assert Busy(s.tasks) != {};
        var id :| id in Busy(s.tasks);
        assert TaskReady(s, id);
      }
    case Awaiting(out) =>
      assert MainReady(c, s) || TaskReady(s, |out|);
    case _ =>
  }

  // ------------------------------------------------------------- termination

  /** Moves left to the spawning loop. */
  function MainLeft<O>(c: Config<O>, s: State<O>): int {
    match s.main
    case Spawning => 3 * c.total + 2 - 2 * |s.tasks|
    case Acquiring => 3 * c.total + 1 - 2 * |s.tasks|
    case Awaiting(out) => c.total + 1 - |out|
    case Returned(_) => 0
  }

  /** How far a task has come. */
  function Stage<O>(t: Task<O>): nat {
    match t
    case Queued => 0
    case Working => 1
    case Counted(_) => 2
    case Finished(_) => 3
  }

  function Stages<O>(tasks: seq<Task<O>>): nat {
    if tasks == [] then 0 else Stages(tasks[..|tasks| - 1]) + Stage(tasks[|tasks| - 1])
  }

  lemma {:induction false} StagesAreBounded<O>(tasks: seq<Task<O>>)
    ensures Stages(tasks) <= 3 * |tasks|
  {
    if tasks != [] {
      StagesAreBounded(tasks[..|tasks| - 1]);
    }
  }

  lemma {:induction false} StageMoved<O>(tasks: seq<Task<O>>, id: nat, t: Task<O>)
    requires id < |tasks|
    ensures Stages(tasks[id := t]) == Stages(tasks) + Stage(t) - Stage(tasks[id])
    decreases |tasks|
  {
    var n := |tasks| - 1;
    if id < n {
      StageMoved(tasks[..n], id, t);
      assert tasks[id := t][..n] == tasks[..n][id := t];
    } else {
      assert tasks[id := t][..n] == tasks[..n];
    }
  }

  function MainMoves(steps: seq<Step>): nat {
    if steps == [] then 0 else MainMoves(steps[..|steps| - 1]) + (if steps[|steps| - 1].MainMoves? then 1 else 0)
  }

  function TaskMoves(steps: seq<Step>): nat {
    if steps == [] then 0 else TaskMoves(steps[..|steps| - 1]) + (if steps[|steps| - 1].TaskMoves? then 1 else 0)
  }

  lemma MainBringsTheEnd<O>(c: Config<O>, s: State<O>)
    requires MainInv(c, s) && MainReady(c, s)
    ensures 0 <= MainLeft(c, MainMove(c, s)) < MainLeft(c, s)
    ensures Stages(MainMove(c, s).tasks) == Stages(s.tasks)
  {
    hide Sequential, Stages;
    if s.main.Acquiring? {
      SpawnedHasNoStage(s.tasks);
    }
  }

  lemma SpawnedHasNoStage<O>(tasks: seq<Task<O>>)
    ensures Stages(tasks + [Queued]) == Stages(tasks)
  {
    assert (tasks + [Queued])[..|tasks|] == tasks;
  }

  lemma TaskGoesOn<O>(c: Config<O>, s: State<O>, id: nat)
    requires TaskReady(s, id)
    ensures Stages(TaskMove(c, s, id).tasks) > Stages(s.tasks)
    ensures MainLeft(c, TaskMove(c, s, id)) == MainLeft(c, s)
  {
    hide Stages;
    StageMoved(s.tasks, id, TaskMove(c, s, id).tasks[id]);
  }

  lemma {:induction false} MovesAreBounded<O>(c: Config<O>, states: seq<State<O>>, steps: seq<Step>, i: nat)
    requires IsRun(c, states, steps) && i < |states|
    ensures 0 <= MainLeft(c, states[i]) && MainMoves(steps[..i]) + MainLeft(c, states[i]) <= 3 * c.total + 2
    ensures TaskMoves(steps[..i]) <= Stages(states[i].tasks)
  {
    hide MainMove, TaskMove, MainLeft, Stages, MainReady, TaskReady, PermitsAccounted, CallsAccounted, ReportsAccounted, MainInv;
    if i == 0 {
      StartsWithAllMoves(c);
    } else {
      var s, step := states[i - 1], steps[i - 1];
      MovesAreBounded(c, states, steps, i - 1);
      RunKeepsInv(c, states, steps, i - 1);
      assert Moves(c, s, step, states[i]);
      assert steps[..i][..i - 1] == steps[..i - 1];
      match step
      case MainMoves => MainBringsTheEnd(c, s);
      case TaskMoves(id) => TaskGoesOn(c, s, id);
      case Trip => TripChangesNoMoves(c, s);
    }
  }

  lemma StartsWithAllMoves<O>(c: Config<O>)
    ensures MainLeft(c, Start(c)) == 3 * c.total + 2 && Stages(Start(c).tasks) == 0
  {
  }

  lemma TripChangesNoMoves<O>(c: Config<O>, s: State<O>)
    ensures MainLeft(c, s.(cancelled := true)) == MainLeft(c, s)
  {
  }

  /**
   The call returns: the loop makes at most three moves a block and two more, the tasks at
   most three each, and when neither has a move left the loop has returned.
   */
  lemma RunReturns<O>(c: Config<O>, states: seq<State<O>>, steps: seq<Step>, i: nat)
    requires IsRun(c, states, steps) && i < |states|
    ensures MainMoves(steps[..i]) <= 3 * c.total + 2 && TaskMoves(steps[..i]) <= 3 * c.total
    ensures !MainReady(c, states[i]) && (forall id :: !TaskReady(states[i], id)) ==> states[i].main.Returned?
    ensures MainMoves(steps[..i]) == 3 * c.total + 2 ==> states[i].main.Returned?
  {
    MovesAreBounded(c, states, steps, i);
    StagesAreBounded(states[i].tasks);
    TasksWithinTotal(c, states, steps, i);
    if !states[i].main.Returned? {
      NeverStuck(c, states, steps, i);
      RunKeepsInv(c, states, steps, i);
    }
    hide Stages, IsRun, PermitsAccounted, CallsAccounted, ReportsAccounted, Sequential;
  }

  lemma {:induction false} TasksWithinTotal<O>(c: Config<O>, states: seq<State<O>>, steps: seq<Step>, i: nat)
    requires IsRun(c, states, steps) && i < |states|
    ensures |states[i].tasks| <= c.total
  {
    if i > 0 {
      TasksWithinTotal(c, states, steps, i - 1);
      RunKeepsInv(c, states, steps, i - 1);
      assert Moves(c, states[i - 1], steps[i - 1], states[i]);
      hide PermitsAccounted, CallsAccounted, ReportsAccounted, Sequential;
    }
  }

  /** Block `k` is the first that yields no value. */
  ghost predicate IsFirstToFail<O>(c: Config<O>, k: nat) {
    k < c.total && !c.worker(k).Value? && forall j :: 0 <= j < k ==> c.worker(j).Value?
  }

  /** Without any trip: all the values in order, or the message of the first block to fail or panic. */
  lemma UntrippedResult<O>(c: Config<O>, states: seq<State<O>>, steps: seq<Step>, i: nat)
    requires IsRun(c, states, steps) && i < |states| && states[i].main.Returned? && Trip !in steps
    ensures match states[i].main.result
            case Success(out) => |out| == c.total && forall k :: 0 <= k < c.total ==> c.worker(k) == Value(out[k])
            case Failure(Cancelled) => exists k :: IsFirstToFail(c, k) && c.worker(k) == Fails("cancelled")
            case Failure(WorkerFailed(m)) =>
              exists k :: IsFirstToFail(c, k) && (c.worker(k) == Panics(m) || (c.worker(k) == Fails(m) && m != "cancelled"))
  {
    ResultIsSequential(c, states, steps, i);
    assert Trip in steps[..i] ==> Trip in steps;
    SequentialResult(c, []);
  }

  lemma {:induction false} SequentialResult<O>(c: Config<O>, out: seq<O>)
    requires |out| <= c.total && forall j :: 0 <= j < |out| ==> c.worker(j) == Value(out[j])
    ensures match Sequential(c, out)
            case Success(all) => |all| == c.total && forall k :: 0 <= k < c.total ==> c.worker(k) == Value(all[k])
            case Failure(Cancelled) => exists k :: IsFirstToFail(c, k) && c.worker(k) == Fails("cancelled")
            case Failure(WorkerFailed(m)) =>
              exists k :: IsFirstToFail(c, k) && (c.worker(k) == Panics(m) || (c.worker(k) == Fails(m) && m != "cancelled"))
    decreases c.total - |out|
  {
    if |out| < c.total {
      if c.worker(|out|).Value? {
        SequentialResult(c, out + [c.worker(|out|).value]);
      } else {
        assert IsFirstToFail(c, |out|);
      }
    }
  }

  /**
   A worker's own error text "cancelled" is taken for a cancellation: without any trip, the
   answer is `Cancelled` exactly when the first block to fail does so with that text.
   */
  lemma UntrippedCancelledIff<O>(c: Config<O>, states: seq<State<O>>, steps: seq<Step>, i: nat)
    requires IsRun(c, states, steps) && i < |states| && states[i].main.Returned? && Trip !in steps
    ensures states[i].main.result == Failure(Cancelled) <==> exists k :: IsFirstToFail(c, k) && c.worker(k) == Fails("cancelled")
  {
    UntrippedResult(c, states, steps, i);
    hide IsRun;
  }
}
