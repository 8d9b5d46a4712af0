/**
 A pipeline job and its cancellers (crates/orbit-etl/src/engine.rs, `run`, `execute`,
 `cancel_job`, `mark_*`, `bump_progress`).

 The spawned worker moves one store access, poll or event at a time; calls to cancel come in
 between, in any number. Every store access may fail. Events go through a channel of 32 to
 the stream that `run` returned, whose holder may read it, leave it unread or close it.
 */
module EtlJob {
  import opened Wrappers
  import opened Arithmetic
  import opened EtlInsert

  datatype JobState = Pending | Running | Completed | Failed | Cancelled

  /** The job's record in memory. */
  datatype Job = Job(state: JobState, rowsRead: nat, rowsWritten: nat, error: Option<string>)

  /** A job that completed or was cancelled says so with its counts, one that failed with its error. */
  datatype Event =
    | Started
    | Progress(rowsRead: nat, rowsWritten: nat)
    | Finished(state: JobState, rowsRead: nat, rowsWritten: nat)
    | FailedWith(error: string)

  datatype Outcome = Done | WasCancelled | Errored(error: string)

  /** Where the worker stands. */
  datatype At =
    | Begin | RunningRow | SendStarted | Reading | FirstPoll
    | Polling(chunk: nat) | Inserting(chunk: nat) | Bump(chunk: nat) | BumpRow(chunk: nat) | SendProgress(chunk: nat)
    | Complete | CompleteRow | SendCompleted
    | Returned(outcome: Outcome) | Mark(outcome: Outcome) | SendEnd(outcome: Outcome) | Over

  /** `errorAt` is the text of the error at a place, where the store failed or the rows conflicted. */
  datatype Config = Config(initial: Table, rows: seq<Row>, batchSize: nat, ignore: bool, errorAt: (At, bool) -> string)

  /** Events that the channel holds unread. */
  const CAPACITY: nat := 32

  /** `events` are those sent so far, dropped ones after the stream was closed included. */
  datatype State = State(at: At, table: Table, written: nat, job: Job, events: seq<Event>,
                         registered: bool, flag: bool, commits: nat, unread: nat, open: bool)

  /**
   A call to cancel, one move of the worker whose store access, if any, succeeds or not, or
   the stream's holder reading an event or closing the stream.
   */
  datatype Step = CancelJob | Work(ok: bool) | Receive | CloseStream

  function Batch(c: Config): (size: nat)
    ensures size == if c.batchSize == 0 then 1 else c.batchSize
  {
    Max(c.batchSize, 1)
  }

  function ChunkStart(c: Config, k: nat): nat {
    ProductMonotone(0, k, Batch(c));
    k * Batch(c)
  }

  /** The rows of the first `k` chunks. */
  function Leading(c: Config, k: nat): seq<Row> {
    c.rows[..Min(ChunkStart(c, k), |c.rows|)]
  }

  function Chunk(c: Config, k: nat): seq<Row> {
    var start := Min(ChunkStart(c, k), |c.rows|);
    c.rows[start..start + Min(Batch(c), |c.rows| - start)]
  }

  function Start(c: Config): State {
    State(Begin, c.initial, 0, Job(Pending, 0, 0, None), [], true, false, 0, 0, true)
  }

  /** The next place, or the return with the error that the store gave here. */
  function OrError(c: Config, s: State, ok: bool, next: At): State {
    s.(at := if ok then next else Returned(Errored(c.errorAt(s.at, true))))
  }

  function EndState(outcome: Outcome): JobState {
    match outcome
    case Done => Completed
    case WasCancelled => Cancelled
    case Errored(_) => Failed
  }

  /** What the record says of an error. */
  function ErrorOf(outcome: Outcome): Option<string> {
    match outcome
    case Done => None
    case WasCancelled => Some("cancelled")
    case Errored(e) => Some(e)
  }

  /** The terminal event that a record announces. */
  function EndEvent(job: Job): Event {
    if job.state == Failed && job.error.Some? then FailedWith(job.error.value)
    else Finished(job.state, job.rowsRead, job.rowsWritten)
  }

  function Sent(s: State, e: Event, at: At): State {
    s.(events := s.events + [e], at := at, unread := if s.open then s.unread + 1 else s.unread)
  }

  /** Inserts one chunk: the table and the count advance together, or neither does. */
  function InsertMove(c: Config, s: State, k: nat, ok: bool): State {
    var r := InsertRows(s.table, Chunk(c, k), c.ignore);
    if !ok || r.Failure? || |r.value.rows| < |s.table.rows| then s.(at := Returned(Errored(c.errorAt(s.at, !ok))))
    else s.(at := Bump(k), table := r.value, written := s.written + (|r.value.rows| - |s.table.rows|), commits := s.commits + 1)
  }

  predicate AtSend(at: At) {
    at.SendStarted? || at.SendProgress? || at.SendCompleted? || at.SendEnd?
  }

  /** A send goes through at once if the stream is closed, and otherwise when there is room. */
  predicate CanSend(s: State) {
    !s.open || s.unread < CAPACITY
  }

  predicate InLoop(at: At) {
    at.Polling? || at.Inserting? || at.Bump? || at.BumpRow? || at.SendProgress?
  }

  predicate BeforeLoop(at: At) {
    at.Begin? || at.RunningRow? || at.SendStarted? || at.Reading? || at.FirstPoll?
  }

  /** From the spawn to the first poll. */
  function StartMove(c: Config, s: State, ok: bool): State
    requires BeforeLoop(s.at)
  {
    match s.at
    case Begin => s.(job := s.job.(state := Running), at := RunningRow)
    case RunningRow => OrError(c, s, ok, SendStarted)
    case SendStarted => Sent(s, Started, Reading)
    case Reading => OrError(c, s, ok, FirstPoll)
    case FirstPoll => s.(at := if s.flag then Returned(WasCancelled) else Polling(0))
  }

  /** The loop over chunks. */
  function ChunkMove(c: Config, s: State, ok: bool): State
    requires InLoop(s.at)
  {
    match s.at
    case Polling(k) =>
      if ChunkStart(c, k) >= |c.rows| then s.(at := Complete)
      else s.(at := if s.flag then Returned(WasCancelled) else Inserting(k))
    case Inserting(k) => InsertMove(c, s, k, ok)
    case Bump(k) => s.(job := s.job.(rowsRead := |c.rows|, rowsWritten := s.written), at := BumpRow(k))
    case BumpRow(k) => OrError(c, s, ok, SendProgress(k))
    case SendProgress(k) => Sent(s, Progress(|c.rows|, s.written), Polling(k + 1))
  }

  /** Completion, and what follows the return. */
  function EndMove(c: Config, s: State, ok: bool): State
    requires !BeforeLoop(s.at) && !InLoop(s.at) && s.at != Over
  {
    match s.at
    case Complete => s.(job := s.job.(state := Completed, rowsRead := |c.rows|, rowsWritten := s.written), at := CompleteRow)
    case CompleteRow => OrError(c, s, ok, SendCompleted)
    case SendCompleted => Sent(s, Finished(Completed, |c.rows|, s.written), Returned(Done))
    case Returned(outcome) => s.(registered := false, at := if outcome.Done? then Over else Mark(outcome))
    case Mark(outcome) => s.(job := s.job.(state := EndState(outcome), error := ErrorOf(outcome)), at := SendEnd(outcome))
    case SendEnd(Errored(e)) => Sent(s, FailedWith(e), Over)
    case SendEnd(outcome) => Sent(s, Finished(EndState(outcome), s.job.rowsRead, s.job.rowsWritten), Over)
  }

  /** One move of the worker. */
  function WorkMove(c: Config, s: State, ok: bool): State
    requires s.at != Over
  {
    if BeforeLoop(s.at) then StartMove(c, s, ok)
    else if InLoop(s.at) then ChunkMove(c, s, ok)
    else EndMove(c, s, ok)
  }

  predicate Moves(c: Config, s: State, step: Step, s': State) {
    match step
    case CancelJob => s' == if s.registered then s.(flag := true) else s
    case Work(ok) => s.at != Over && (AtSend(s.at) ==> CanSend(s)) && s' == WorkMove(c, s, ok)
    case Receive => s.open && s.unread > 0 && s' == s.(unread := s.unread - 1)
    case CloseStream => s' == s.(open := false)
  }

  predicate IsRun(c: Config, states: seq<State>, steps: seq<Step>) {
    && |states| == |steps| + 1
    && states[0] == Start(c)
    && forall i :: 0 <= i < |steps| ==> Moves(c, states[i], steps[i], states[i + 1])
  }

  // ---------------------------------------------------------------- invariants

  /** Chunks committed, as the worker's place tells. */
  function CommitsAt(at: At): nat {
    match at
    case Polling(k) => k
    case Inserting(k) => k
    case Bump(k) => k + 1
    case BumpRow(k) => k + 1
    case SendProgress(k) => k + 1
    case _ => 0
  }

  /** The table is the initial one plus a whole number of leading chunks, and the count is theirs. */
  predicate Loaded(c: Config, s: State) {
    && InsertRows(c.initial, Leading(c, s.commits), c.ignore) == Success(s.table)
    && |s.table.rows| == |c.initial.rows| + s.written
  }

  predicate Placed(c: Config, s: State) {
    && s.commits <= |c.rows|
    && (BeforeLoop(s.at) ==> s.commits == 0)
    && (InLoop(s.at) ==> s.commits == CommitsAt(s.at))
    && (s.at.Inserting? || s.at.Bump? || s.at.BumpRow? || s.at.SendProgress? ==> ChunkStart(c, s.at.chunk) < |c.rows|)
  }

  /** The worker turns to completion with every chunk committed. */
  predicate WholeAtEnd(c: Config, s: State) {
    s.at.Complete? || s.at.CompleteRow? || s.at.SendCompleted? || s.at == Returned(Done) ==> Leading(c, s.commits) == c.rows
  }

  /** The record in memory follows the load, except between a commit and its bump. */
  predicate Recorded(c: Config, s: State) {
    !s.at.Bump? ==> s.job.rowsWritten == s.written && s.job.rowsRead == if s.commits == 0 then 0 else |c.rows|
  }

  predicate IsTerminal(e: Event) {
    e.Finished? || e.FailedWith?
  }

  predicate Tracked(c: Config, s: State) {
    && (s.registered <==> !(s.at.Mark? || s.at.SendEnd? || s.at.Over?))
    && ((s.at.Returned? || s.at.Mark? || s.at.SendEnd?) && s.at.outcome.WasCancelled? ==> s.flag)
    && ((s.at.Mark? || s.at.SendEnd?) ==> !s.at.outcome.Done?)
    && (s.at.SendEnd? ==> s.job.state == EndState(s.at.outcome) && s.job.error == ErrorOf(s.at.outcome))
    && (!(s.at.SendEnd? || s.at.Over?) ==> s.job.error == None)
    && (s.at.CompleteRow? || s.at.SendCompleted? || s.at == Returned(Done) ==> s.job.state == Completed)
  }

  /** At most one terminal event; it is last, and it says what the record says. */
  predicate EndsOnce(c: Config, s: State) {
    var n := |s.events|;
    && (forall i :: 0 <= i < n - 1 ==> !IsTerminal(s.events[i]))
    && (n > 0 && IsTerminal(s.events[n - 1]) <==> s.at == Over || s.at == Returned(Done))
    && (s.at == Over || s.at == Returned(Done) ==>
          && s.events[n - 1] == EndEvent(s.job)
          && s.job.state in {Completed, Failed, Cancelled}
          && (s.job.state == Cancelled ==> s.flag && s.job.error == Some("cancelled"))
          && (s.job.state == Failed ==> s.job.error.Some?)
          && (s.job.state == Completed ==> s.job.error == None)
          && (s.job.state == Completed ==> Leading(c, s.commits) == c.rows && s.job.rowsRead == |c.rows|))
  }

  predicate Inv(c: Config, s: State) {
    Loaded(c, s) && Placed(c, s) && WholeAtEnd(c, s) && Recorded(c, s) && Tracked(c, s) && EndsOnce(c, s)
  }

  lemma NextStart(c: Config, k: nat)
    ensures ChunkStart(c, k + 1) == ChunkStart(c, k) + Batch(c) && k <= ChunkStart(c, k)
  {
    NextMultiple(k, Batch(c));
  }

  lemma NextMultiple(k: nat, d: nat)
    requires d >= 1
    ensures (k + 1) * d == k * d + d && k <= k * d
  {
    assert (k + 1) * d == k * d + d;
    ProductMonotone(1, d, k);
    assert 1 * k <= d * k == k * d;
  }

  lemma NextChunk(c: Config, k: nat)
    requires ChunkStart(c, k) < |c.rows|
    ensures Leading(c, k + 1) == Leading(c, k) + Chunk(c, k)
  {
    NextStart(c, k);
    hide ChunkStart;
  }

  lemma AllLeading(c: Config, k: nat)
    requires ChunkStart(c, k) >= |c.rows|
    ensures Leading(c, k) == c.rows
  {
  }

  /** Inserting changes nothing but the table and the counts, and goes on or gives up. */
  lemma InsertMoveEnds(c: Config, s: State, k: nat, ok: bool)
    ensures var s' := InsertMove(c, s, k, ok);
            && ((s'.at.Returned? && s'.at.outcome.Errored? && s'.commits == s.commits) || (s'.at == Bump(k) && s'.commits == s.commits + 1))
            && s'.job == s.job && s'.events == s.events && s'.registered == s.registered && s'.flag == s.flag
            && s'.unread == s.unread && s'.open == s.open
            && (s'.at.Returned? ==> s' == s.(at := s'.at))
  {
  }

  lemma LoadedKept(c: Config, s: State, ok: bool)
    requires Loaded(c, s) && Placed(c, s) && s.at != Over
    ensures Loaded(c, WorkMove(c, s, ok))
  {
    if s.at.Inserting? {
      InsertKeepsLoaded(c, s, ok);
    }
    hide Leading, InsertRows, InsertMove, Chunk, ChunkStart;
  }

  lemma InsertKeepsLoaded(c: Config, s: State, ok: bool)
    requires Loaded(c, s) && s.at.Inserting? && s.commits == s.at.chunk && ChunkStart(c, s.at.chunk) < |c.rows|
    ensures Loaded(c, InsertMove(c, s, s.at.chunk, ok))
  {
    var k := s.at.chunk;
    NextChunk(c, k);
    InsertConcat(c.initial, Leading(c, k), Chunk(c, k), c.ignore);
    hide Leading, Chunk, ChunkStart, InsertRows;
  }

  lemma PlacedKept(c: Config, s: State, ok: bool)
    requires Placed(c, s) && s.at != Over
    ensures Placed(c, WorkMove(c, s, ok))
  {
    hide Placed, StartMove, ChunkMove, EndMove;
    if BeforeLoop(s.at) {
      PlacedAtStart(c, s, ok);
    } else if InLoop(s.at) {
      PlacedInLoop(c, s, ok);
    } else {
      PlacedAtEnd(c, s, ok);
    }
  }

  lemma PlacedAtStart(c: Config, s: State, ok: bool)
    requires Placed(c, s) && BeforeLoop(s.at)
    ensures Placed(c, StartMove(c, s, ok))
  {
    hide ChunkStart;
  }

  lemma PlacedInLoop(c: Config, s: State, ok: bool)
    requires Placed(c, s) && InLoop(s.at)
    ensures Placed(c, ChunkMove(c, s, ok))
  {
    hide InsertRows, ChunkStart, Chunk, InsertMove;
    if s.at.Inserting? {
      NextStart(c, s.at.chunk);
      InsertMoveEnds(c, s, s.at.chunk, ok);
    }
  }

  lemma PlacedAtEnd(c: Config, s: State, ok: bool)
    requires Placed(c, s) && !BeforeLoop(s.at) && !InLoop(s.at) && s.at != Over
    ensures Placed(c, EndMove(c, s, ok))
  {
    hide ChunkStart;
  }

  lemma WholeAtEndKept(c: Config, s: State, ok: bool)
    requires WholeAtEnd(c, s) && Placed(c, s) && s.at != Over
    ensures WholeAtEnd(c, WorkMove(c, s, ok))
  {
    hide WholeAtEnd, StartMove, ChunkMove, EndMove;
    if BeforeLoop(s.at) {
      WholeAtEndAtStart(c, s, ok);
    } else if InLoop(s.at) {
      WholeAtEndInLoop(c, s, ok);
    } else {
      WholeAtEndAtEnd(c, s, ok);
    }
  }

  lemma WholeAtEndAtStart(c: Config, s: State, ok: bool)
    requires WholeAtEnd(c, s) && Placed(c, s) && BeforeLoop(s.at)
    ensures WholeAtEnd(c, StartMove(c, s, ok))
  {
    hide Leading, ChunkStart;
  }

  lemma WholeAtEndInLoop(c: Config, s: State, ok: bool)
    requires WholeAtEnd(c, s) && Placed(c, s) && InLoop(s.at)
    ensures WholeAtEnd(c, ChunkMove(c, s, ok))
  {
    if s.at.Inserting? {
      InsertMoveEnds(c, s, s.at.chunk, ok);
    } else if s.at.Polling? && ChunkStart(c, s.at.chunk) >= |c.rows| {
      AllLeading(c, s.at.chunk);
    }
    hide Leading, InsertRows, ChunkStart, Chunk, InsertMove;
  }

  lemma WholeAtEndAtEnd(c: Config, s: State, ok: bool)
    requires WholeAtEnd(c, s) && Placed(c, s) && !BeforeLoop(s.at) && !InLoop(s.at) && s.at != Over
    ensures WholeAtEnd(c, EndMove(c, s, ok))
  {
    hide Leading, ChunkStart;
  }

  lemma RecordedKept(c: Config, s: State, ok: bool)
    requires Recorded(c, s) && Placed(c, s) && WholeAtEnd(c, s) && s.at != Over
    ensures Recorded(c, WorkMove(c, s, ok))
  {
    assert Leading(c, 0) == [];
    if s.at.Inserting? {
      InsertMoveEnds(c, s, s.at.chunk, ok);
    }
    hide Leading, InsertRows, ChunkStart, Chunk, InsertMove;
  }

  lemma TrackedKept(c: Config, s: State, ok: bool)
    requires Tracked(c, s) && s.at != Over
    ensures Tracked(c, WorkMove(c, s, ok))
  {
    hide Tracked, StartMove, ChunkMove, EndMove;
    if BeforeLoop(s.at) {
      TrackedAtStart(c, s, ok);
    } else if InLoop(s.at) {
      TrackedInLoop(c, s, ok);
    } else {
      TrackedAtEnd(c, s, ok);
    }
  }

  lemma TrackedAtStart(c: Config, s: State, ok: bool)
    requires Tracked(c, s) && BeforeLoop(s.at)
    ensures Tracked(c, StartMove(c, s, ok))
  {
    hide Leading, ChunkStart;
  }

  lemma TrackedInLoop(c: Config, s: State, ok: bool)
    requires Tracked(c, s) && InLoop(s.at)
    ensures Tracked(c, ChunkMove(c, s, ok))
  {
    hide Leading, InsertRows, ChunkStart, Chunk, InsertMove;
    if s.at.Inserting? {
      InsertMoveEnds(c, s, s.at.chunk, ok);
    }
  }

  lemma TrackedAtEnd(c: Config, s: State, ok: bool)
    requires Tracked(c, s) && !BeforeLoop(s.at) && !InLoop(s.at) && s.at != Over
    ensures Tracked(c, EndMove(c, s, ok))
  {
    hide Leading, ChunkStart;
  }

  lemma EndsOnceKept(c: Config, s: State, ok: bool)
    requires EndsOnce(c, s) && WholeAtEnd(c, s) && Tracked(c, s) && Recorded(c, s) && s.at != Over
    ensures EndsOnce(c, WorkMove(c, s, ok))
  {
    hide EndsOnce, WholeAtEnd, Tracked, Recorded, StartMove, ChunkMove, EndMove;
    if BeforeLoop(s.at) {
      StartEndsNothing(c, s, ok);
    } else if InLoop(s.at) {
      ChunkEndsNothing(c, s, ok);
    } else {
      EndSaysOnce(c, s, ok);
    }
  }

  lemma StartEndsNothing(c: Config, s: State, ok: bool)
    requires EndsOnce(c, s) && BeforeLoop(s.at)
    ensures EndsOnce(c, StartMove(c, s, ok))
  {
    hide Leading;
  }

  lemma ChunkEndsNothing(c: Config, s: State, ok: bool)
    requires EndsOnce(c, s) && InLoop(s.at)
    ensures EndsOnce(c, ChunkMove(c, s, ok))
  {
    hide Leading, ChunkStart, InsertMove;
    if s.at.Inserting? {
      InsertMoveEnds(c, s, s.at.chunk, ok);
    }
  }

  lemma EndSaysOnce(c: Config, s: State, ok: bool)
    requires EndsOnce(c, s) && WholeAtEnd(c, s) && Tracked(c, s) && Recorded(c, s) && s.at != Over
    requires !BeforeLoop(s.at) && !InLoop(s.at)
    ensures EndsOnce(c, EndMove(c, s, ok))
  {
    assert Leading(c, 0) == [];
    hide Leading;
  }

  /** What the invariants speak of; a cancel or the stream's holder changes no more than raising the flag. */
  lemma OthersKeepInv(c: Config, s: State, s': State)
    requires Inv(c, s) && (s.flag ==> s'.flag) && s' == s.(flag := s'.flag, unread := s'.unread, open := s'.open)
    ensures Inv(c, s')
  {
    hide InsertRows, Leading, ChunkStart;
  }

  lemma StepKeepsInv(c: Config, s: State, step: Step, s': State)
    requires Inv(c, s) && Moves(c, s, step, s')
    ensures Inv(c, s')
  {
    if step.Work? {
      hide Loaded, Placed, WholeAtEnd, Recorded, Tracked, EndsOnce, WorkMove;
      LoadedKept(c, s, step.ok);
      PlacedKept(c, s, step.ok);
      WholeAtEndKept(c, s, step.ok);
      RecordedKept(c, s, step.ok);
      TrackedKept(c, s, step.ok);
      EndsOnceKept(c, s, step.ok);
    } else {
      hide Inv;
      OthersKeepInv(c, s, s');
    }
  }

  lemma {:induction false} RunKeepsInv(c: Config, states: seq<State>, steps: seq<Step>, i: nat)
    requires IsRun(c, states, steps) && i < |states|
    ensures Inv(c, states[i])
  {
    if i == 0 {
      assert Leading(c, 0) == [];
    } else {
      RunKeepsInv(c, states, steps, i - 1);
      StepKeepsInv(c, states[i - 1], steps[i - 1], states[i]);
    }
  }

  // -------------------------------------------------------------- main results

  /** In every state of every run the table holds a whole number of leading chunks, and the count is theirs. */
  lemma TableIsLeadingChunks(c: Config, states: seq<State>, steps: seq<Step>, i: nat)
    requires IsRun(c, states, steps) && i < |states|
    ensures var s := states[i];
            && InsertRows(c.initial, Leading(c, s.commits), c.ignore) == Success(s.table)
            && s.written == |s.table.rows| - |c.initial.rows|
  {
    RunKeepsInv(c, states, steps, i);
  }

  /** Chunks that can still commit once the flag is up: the one being inserted. */
  function InFlight(s: State): nat {
    if s.at.Inserting? then 1 else 0
  }

  /** No move of the worker touches the flag; only inserting commits, and with the flag up no move comes to insert. */
  lemma FlagKept(c: Config, s: State, ok: bool)
    requires s.at != Over
    ensures var s' := WorkMove(c, s, ok);
            && s'.flag == s.flag
            && s'.commits <= s.commits + (if s.at.Inserting? then 1 else 0)
            && (s.flag && s'.at.Inserting? ==> s.at.Inserting? && s'.commits == s.commits)
  {
    if s.at.Inserting? {
      InsertMoveEnds(c, s, s.at.chunk, ok);
    }
    hide InsertRows, Chunk, ChunkStart, InsertMove;
  }

  /** After a cancel that answered true, at most the chunk then being inserted commits. */
  lemma {:induction false} AtMostOneMoreChunk(c: Config, states: seq<State>, steps: seq<Step>, i: nat, j: nat)
    requires IsRun(c, states, steps) && i < j < |states|
    requires steps[i] == CancelJob && states[i].registered
    ensures states[j].flag && states[j].commits + InFlight(states[j]) <= states[i].commits + InFlight(states[i])
  {
    assert Moves(c, states[j - 1], steps[j - 1], states[j]);
    if j > i + 1 {
      AtMostOneMoreChunk(c, states, steps, i, j - 1);
    }
    if steps[j - 1].Work? {
      FlagKept(c, states[j - 1], steps[j - 1].ok);
    }
    hide WorkMove, IsRun;
  }

  /** Some call to cancel was answered true before state `i`. */
  ghost predicate CancelAnsweredTrue(states: seq<State>, steps: seq<Step>, i: nat)
    requires |states| == |steps| + 1 && i < |states|
  {
    exists k :: 0 <= k < i && steps[k] == CancelJob && states[k].registered
  }

  lemma {:induction false} FlagMeansAnswered(c: Config, states: seq<State>, steps: seq<Step>, i: nat)
    requires IsRun(c, states, steps) && i < |states|
    ensures states[i].flag <==> CancelAnsweredTrue(states, steps, i)
  {
    if i > 0 {
      FlagMeansAnswered(c, states, steps, i - 1);
      assert Moves(c, states[i - 1], steps[i - 1], states[i]);
      if steps[i - 1].Work? {
        FlagKept(c, states[i - 1], steps[i - 1].ok);
      }
      hide WorkMove;
      if CancelAnsweredTrue(states, steps, i - 1) {
        assert CancelAnsweredTrue(states, steps, i);
      }
    }
  }

  /** Until the worker is over, or has sent its completion, no terminal event has been sent. */
  lemma NoTerminalBeforeTheEnd(c: Config, states: seq<State>, steps: seq<Step>, i: nat)
    requires IsRun(c, states, steps) && i < |states| && states[i].at != Over && states[i].at != Returned(Done)
    ensures forall e :: e in states[i].events ==> !IsTerminal(e)
  {
    RunKeepsInv(c, states, steps, i);
    hide Loaded, Placed, Recorded, Tracked;
  }

  /**
   A worker that is over has sent exactly one terminal event, last; it names the state of the
   record in memory and its counts, or after a failure its error. Completion means the table of all the rows inserted one
   at a time. Cancellation means that some cancel was answered true; the table then has a
   whole number of leading chunks, and the counts sent are theirs, with zero rows read when
   no chunk was written.
   */
  lemma OneTerminalEvent(c: Config, states: seq<State>, steps: seq<Step>, i: nat)
    requires IsRun(c, states, steps) && i < |states| && states[i].at == Over
    ensures var s := states[i];
            var n := |s.events|;
            && n > 0 && s.events[n - 1] == EndEvent(s.job)
            && (forall e :: e in s.events[..n - 1] ==> !IsTerminal(e))
            && s.job.rowsWritten == |s.table.rows| - |c.initial.rows|
            && s.job.rowsRead == (if s.commits == 0 then 0 else |c.rows|)
            && InsertRows(c.initial, Leading(c, s.commits), c.ignore) == Success(s.table)
            && s.job.state in {Completed, Failed, Cancelled}
            && (s.job.state == Completed ==> InsertRows(c.initial, c.rows, c.ignore) == Success(s.table) && s.job.rowsRead == |c.rows| && s.job.error == None)
            && (s.job.state == Cancelled ==> CancelAnsweredTrue(states, steps, i) && s.job.error == Some("cancelled"))
            && (s.job.state == Failed ==> s.job.error.Some? && s.events[n - 1] == FailedWith(s.job.error.value))
  {
    RunKeepsInv(c, states, steps, i);
    FlagMeansAnswered(c, states, steps, i);
    hide InsertRows, Leading, Placed, Tracked;
  }

  /** Two batch sizes that both complete leave the same table and the same counts. */
  lemma BatchSizeIsImmaterial(c: Config, batchSize: nat, a: seq<State>, aSteps: seq<Step>, i: nat, b: seq<State>, bSteps: seq<Step>, j: nat)
    requires IsRun(c, a, aSteps) && i < |a| && a[i].at == Over && a[i].job.state == Completed
    requires IsRun(c.(batchSize := batchSize), b, bSteps) && j < |b| && b[j].at == Over && b[j].job.state == Completed
    ensures a[i].table == b[j].table && a[i].job == b[j].job
  {
    OneTerminalEvent(c, a, aSteps, i);
    OneTerminalEvent(c.(batchSize := batchSize), b, bSteps, j);
  }

  /** Cancel answers true exactly until the worker has dropped the flag, which follows its return. */
  lemma CancelAnswersTrueIff(c: Config, states: seq<State>, steps: seq<Step>, i: nat)
    requires IsRun(c, states, steps) && i < |states|
    ensures states[i].registered <==> !(states[i].at.Mark? || states[i].at.SendEnd? || states[i].at.Over?)
  {
    RunKeepsInv(c, states, steps, i);
  }

  /** So it can answer true for a job that has completed and said so. */
  lemma CancelCanAnswerTrueAfterCompletion(c: Config) returns (states: seq<State>, steps: seq<Step>)
    requires c.rows == []
    ensures IsRun(c, states, steps)
    ensures var s := states[|states| - 1];
            s.registered && s.job.state == Completed && s.events == [Started, Finished(Completed, 0, 0)]
  {
    var first := MovesToLoop(c);
    var last := MovesToReturn(c, first[5]);
    hide WorkMove;
    states := first + last[1..];
    steps := seq(9, i => Work(true));
    forall i | 0 <= i < 9
      ensures Moves(c, states[i], steps[i], states[i + 1])
    {
      if i >= 5 {
        assert states[i] == last[i - 5] && states[i + 1] == last[i - 4];
      }
    }
  }

  /** One undisturbed move with room in the channel. */
  predicate MovesAlone(c: Config, s: State, s': State) {
    s.at != Over && CanSend(s) && s' == WorkMove(c, s, true)
  }

  lemma MovesToLoop(c: Config) returns (states: seq<State>)
    ensures |states| == 6 && states[0] == Start(c)
    ensures forall i :: 0 <= i < 5 ==> MovesAlone(c, states[i], states[i + 1])
    ensures states[5] == Start(c).(at := Polling(0), job := Job(Running, 0, 0, None), events := [Started], unread := 1)
  {
    hide ChunkMove, EndMove;
    var s0 := Start(c);
    var s1 := WorkMove(c, s0, true);
    var s2 := WorkMove(c, s1, true);
    var s3 := WorkMove(c, s2, true);
    var s4 := WorkMove(c, s3, true);
    var s5 := WorkMove(c, s4, true);
    states := [s0, s1, s2, s3, s4, s5];
  }

  lemma MovesToReturn(c: Config, s: State) returns (states: seq<State>)
    requires c.rows == [] && s.at == Polling(0) && s.written == 0 && s.registered && s.events == [Started] && s.unread == 1
    ensures |states| == 5 && states[0] == s
    ensures forall i :: 0 <= i < 4 ==> MovesAlone(c, states[i], states[i + 1])
    ensures var last := states[4];
            last.registered && last.job.state == Completed && last.events == [Started, Finished(Completed, 0, 0)]
  {
    assert ChunkStart(c, 0) == 0;
    hide StartMove, InsertMove, ChunkStart;
    var s1 := WorkMove(c, s, true);
    var s2 := WorkMove(c, s1, true);
    var s3 := WorkMove(c, s2, true);
    var s4 := WorkMove(c, s3, true);
    states := [s, s1, s2, s3, s4];
  }

  // ------------------------------------------------------ cancelling in time

  /** A poll of the flag that can still stop the job lies ahead. */
  predicate PollAhead(c: Config, s: State) {
    || BeforeLoop(s.at)
    || (s.at.Polling? && ChunkStart(c, s.at.chunk) < |c.rows|)
    || (InLoop(s.at) && !s.at.Polling? && ChunkStart(c, s.at.chunk + 1) < |c.rows|)
  }

  /** The worker is to stop, or has stopped, short of completing. */
  predicate WontComplete(c: Config, s: State) {
    && s.job.state != Completed
    && (PollAhead(c, s)
        || ((s.at.Returned? || s.at.Mark? || s.at.SendEnd?) && !s.at.outcome.Done?)
        || s.at.Over?)
  }

  /** No poll can stop the worker any more, and none has. */
  predicate WontBeCancelled(c: Config, s: State) {
    && s.job.state != Cancelled && !PollAhead(c, s)
    && (s.at.Returned? || s.at.Mark? || s.at.SendEnd? ==> !s.at.outcome.WasCancelled?)
  }

  lemma WontCompleteKept(c: Config, s: State, ok: bool)
    requires s.flag && WontComplete(c, s) && s.at != Over
    ensures WontComplete(c, WorkMove(c, s, ok))
  {
    if s.at.Inserting? {
      InsertMoveEnds(c, s, s.at.chunk, ok);
    }
    hide InsertRows, Chunk, ChunkStart;
    if BeforeLoop(s.at) {
      hide ChunkMove, EndMove;
      assert WontComplete(c, WorkMove(c, s, ok));
    } else if InLoop(s.at) {
      hide StartMove, EndMove, InsertMove;
      assert WontComplete(c, WorkMove(c, s, ok));
    } else {
      hide StartMove, ChunkMove;
      assert WontComplete(c, WorkMove(c, s, ok));
    }
  }

  lemma WontBeCancelledKept(c: Config, s: State, ok: bool)
    requires WontBeCancelled(c, s) && s.at != Over
    ensures WontBeCancelled(c, WorkMove(c, s, ok))
  {
    hide StartMove, ChunkMove, EndMove, ChunkStart;
    if InLoop(s.at) {
      WontBeCancelledInLoop(c, s, ok);
    } else {
      WontBeCancelledAtEnd(c, s, ok);
    }
    hide WontBeCancelled;
  }

  lemma WontBeCancelledInLoop(c: Config, s: State, ok: bool)
    requires WontBeCancelled(c, s) && InLoop(s.at)
    ensures WontBeCancelled(c, ChunkMove(c, s, ok))
  {
    hide InsertRows, ChunkStart, Chunk, InsertMove;
    if s.at.Inserting? {
      InsertMoveEnds(c, s, s.at.chunk, ok);
    }
  }

  lemma WontBeCancelledAtEnd(c: Config, s: State, ok: bool)
    requires WontBeCancelled(c, s) && !InLoop(s.at) && s.at != Over
    ensures !BeforeLoop(s.at) && WontBeCancelled(c, EndMove(c, s, ok))
  {
    hide ChunkStart;
  }

  lemma SamePollAhead(c: Config, s: State, s': State)
    requires s'.at == s.at
    ensures PollAhead(c, s') <==> PollAhead(c, s)
  {
    hide ChunkStart;
  }

  /** Once the flag is up with a poll ahead, the job never completes. */
  lemma {:induction false} FlaggedInTimeNeverCompletes(c: Config, states: seq<State>, steps: seq<Step>, i: nat, j: nat)
    requires IsRun(c, states, steps) && i <= j < |states| && states[i].flag && PollAhead(c, states[i])
    ensures states[j].flag && WontComplete(c, states[j])
  {
    if i == j {
      NotYetSettled(c, states, steps, i);
    } else {
      FlaggedInTimeNeverCompletes(c, states, steps, i, j - 1);
      assert Moves(c, states[j - 1], steps[j - 1], states[j]);
      hide PollAhead, IsRun, WorkMove;
      if steps[j - 1].Work? {
        hide WontComplete;
        WontCompleteKept(c, states[j - 1], steps[j - 1].ok);
        FlagKept(c, states[j - 1], steps[j - 1].ok);
      } else {
        SamePollAhead(c, states[j - 1], states[j]);
      }
    }
  }

  /** While the worker is at work its record is neither completed nor cancelled. */
  predicate Unsettled(s: State) {
    && (BeforeLoop(s.at) || InLoop(s.at) || s.at.Complete? ==> s.job.state == Pending || s.job.state == Running)
    && (s.job.state == Cancelled ==> s.flag)
  }

  lemma UnsettledKept(c: Config, s: State, ok: bool)
    requires Unsettled(s) && Tracked(c, s) && s.at != Over
    ensures Unsettled(WorkMove(c, s, ok))
  {
    if s.at.Inserting? {
      InsertMoveEnds(c, s, s.at.chunk, ok);
    }
    hide InsertRows, Chunk, ChunkStart;
    if BeforeLoop(s.at) {
      hide ChunkMove, EndMove;
      assert Unsettled(WorkMove(c, s, ok));
    } else if InLoop(s.at) {
      hide StartMove, EndMove, InsertMove;
      assert Unsettled(WorkMove(c, s, ok));
    } else {
      hide StartMove, ChunkMove;
      assert Unsettled(WorkMove(c, s, ok));
    }
  }

  lemma OthersSettleNothing(s: State, s': State)
    requires Unsettled(s) && (s.flag ==> s'.flag) && s' == s.(flag := s'.flag, unread := s'.unread, open := s'.open)
    ensures Unsettled(s')
  {
  }

  lemma {:induction false} NotYetSettled(c: Config, states: seq<State>, steps: seq<Step>, i: nat)
    requires IsRun(c, states, steps) && i < |states|
    ensures Unsettled(states[i])
  {
    if i > 0 {
      NotYetSettled(c, states, steps, i - 1);
      RunKeepsInv(c, states, steps, i - 1);
      var s, step := states[i - 1], steps[i - 1];
      assert Moves(c, s, step, states[i]);
      hide Unsettled, WorkMove, IsRun, Loaded, Placed, WholeAtEnd, Recorded, Tracked, EndsOnce;
      if step.Work? {
        UnsettledKept(c, s, step.ok);
      } else {
        OthersSettleNothing(s, states[i]);
      }
    }
  }

  /** While the flag is down with no poll ahead, no later cancel stops the job. */
  lemma {:induction false} TooLateToCancel(c: Config, states: seq<State>, steps: seq<Step>, i: nat, j: nat)
    requires IsRun(c, states, steps) && i <= j < |states| && !states[i].flag && !PollAhead(c, states[i])
    ensures WontBeCancelled(c, states[j])
  {
    if i == j {
      NotYetSettled(c, states, steps, i);
      RunKeepsInv(c, states, steps, i);
      hide Loaded, Placed, WholeAtEnd, Recorded, EndsOnce, PollAhead;
    } else {
      TooLateToCancel(c, states, steps, i, j - 1);
      assert Moves(c, states[j - 1], steps[j - 1], states[j]);
      hide PollAhead, IsRun, WorkMove;
      if steps[j - 1].Work? {
        hide WontBeCancelled;
        WontBeCancelledKept(c, states[j - 1], steps[j - 1].ok);
      } else {
        SamePollAhead(c, states[j - 1], states[j]);
      }
    }
  }

  /** Some cancel was answered true while a poll lay ahead. */
  ghost predicate CancelledInTime(c: Config, states: seq<State>, steps: seq<Step>, j: nat)
    requires |states| == |steps| + 1 && j < |states|
  {
    exists k :: 0 <= k < j && steps[k] == CancelJob && states[k].registered && PollAhead(c, states[k])
  }

  /** The cancel that raised the flag. */
  lemma {:induction false} FlagWasRaised(c: Config, states: seq<State>, steps: seq<Step>, i: nat) returns (k: nat)
    requires IsRun(c, states, steps) && i < |states| && states[i].flag
    ensures k < i && steps[k] == CancelJob && states[k].registered && !states[k].flag
  {
    assert Moves(c, states[i - 1], steps[i - 1], states[i]);
    if steps[i - 1].Work? {
      FlagKept(c, states[i - 1], steps[i - 1].ok);
    }
    hide WorkMove;
    if states[i - 1].flag {
      k := FlagWasRaised(c, states, steps, i - 1);
    } else {
      k := i - 1;
    }
  }

  /**
   A job that ends without an error ends cancelled exactly when some cancel was answered true
   with a poll ahead; a cancel answered during the last chunk, or later, is in vain.
   */
  lemma CancelledIffInTime(c: Config, states: seq<State>, steps: seq<Step>, j: nat)
    requires IsRun(c, states, steps) && j < |states| && states[j].at == Over && states[j].job.state != Failed
    ensures states[j].job.state == Cancelled <==> CancelledInTime(c, states, steps, j)
  {
    OneTerminalEvent(c, states, steps, j);
    NotYetSettled(c, states, steps, j);
    hide InsertRows, Leading, PollAhead;
    if k :| 0 <= k < j && steps[k] == CancelJob && states[k].registered && PollAhead(c, states[k]) {
      CancelKeepsPollAhead(c, states, steps, k);
      FlaggedInTimeNeverCompletes(c, states, steps, k + 1, j);
    }
    if states[j].job.state == Cancelled {
      var k := FlagWasRaised(c, states, steps, j);
      if !PollAhead(c, states[k]) {
        TooLateToCancel(c, states, steps, k, j);
      }
    }
  }

  lemma CancelKeepsPollAhead(c: Config, states: seq<State>, steps: seq<Step>, k: nat)
    requires IsRun(c, states, steps) && k < |steps| && steps[k] == CancelJob && states[k].registered && PollAhead(c, states[k])
    ensures states[k + 1].flag && PollAhead(c, states[k + 1])
  {
    assert Moves(c, states[k], steps[k], states[k + 1]);
    hide ChunkStart;
  }

  // ---------------------------------------------------------------- failure

  predicate HasErred(s: State) {
    || ((s.at.Returned? || s.at.Mark? || s.at.SendEnd?) && s.at.outcome.Errored?)
    || (s.at.Over? && s.job.state == Failed)
  }

  /** Without a store failure, only the insertion of a chunk turns to an error. */
  lemma ErrsOnlyAtInsert(c: Config, s: State, s': State)
    requires Moves(c, s, Work(true), s') && Tracked(c, s) && EndsOnce(c, s)
    ensures HasErred(s') ==> HasErred(s) || (s.at.Inserting? && s' == InsertMove(c, s, s.at.chunk, true))
  {
    hide InsertRows, ChunkStart, Chunk, InsertMove, Leading;
  }

  /** When no store access fails the worker errs only on a conflict of the rows themselves. */
  lemma {:induction false} ErrsOnlyOnConflict(c: Config, states: seq<State>, steps: seq<Step>, i: nat)
    requires IsRun(c, states, steps) && i < |states| && forall k :: 0 <= k < i ==> steps[k] != Work(false)
    ensures HasErred(states[i]) ==> InsertRows(c.initial, c.rows, c.ignore).Failure?
  {
    hide InsertRows, ChunkStart, Chunk, Leading, Tracked, EndsOnce, WorkMove, Recorded, WholeAtEnd;
    if i > 0 {
      var s, s' := states[i - 1], states[i];
      ErrsOnlyOnConflict(c, states, steps, i - 1);
      RunKeepsInv(c, states, steps, i - 1);
      assert Moves(c, s, steps[i - 1], s');
      if steps[i - 1] == Work(true) {
        ErrsOnlyAtInsert(c, s, s');
        if s.at.Inserting? {
          ChunkFailsMeansRowsFail(c, s.table, s.at.chunk);
        }
      }
    }
  }

  lemma ChunkFailsMeansRowsFail(c: Config, table: Table, k: nat)
    requires ChunkStart(c, k) < |c.rows| && InsertRows(c.initial, Leading(c, k), c.ignore) == Success(table)
    ensures InsertRows(table, Chunk(c, k), c.ignore).Failure? ==> InsertRows(c.initial, c.rows, c.ignore).Failure?
    ensures InsertRows(table, Chunk(c, k), c.ignore).Success? ==> |InsertRows(table, Chunk(c, k), c.ignore).value.rows| >= |table.rows|
  {
    NextChunk(c, k);
    NextStart(c, k);
    var n := Min(ChunkStart(c, k + 1), |c.rows|);
    assert c.rows == c.rows[..n] + c.rows[n..];
    InsertConcat(c.initial, Leading(c, k), Chunk(c, k), c.ignore);
    InsertConcat(c.initial, c.rows[..n], c.rows[n..], c.ignore);
    if InsertRows(table, Chunk(c, k), c.ignore).Success? {
      InsertOnlyAppends(table, Chunk(c, k), c.ignore);
    }
  }

  /** Neither cancelled nor failed by the store, a worker that ends completes exactly when the rows can all be inserted. */
  lemma LeftAloneCompletesIffRowsInsert(c: Config, states: seq<State>, steps: seq<Step>, i: nat)
    requires IsRun(c, states, steps) && i < |states| && states[i].at == Over
    requires forall k :: 0 <= k < i ==> steps[k] != CancelJob && steps[k] != Work(false)
    ensures states[i].job.state == Completed <==> InsertRows(c.initial, c.rows, c.ignore).Success?
  {
    OneTerminalEvent(c, states, steps, i);
    ErrsOnlyOnConflict(c, states, steps, i);
    hide InsertRows, IsRun, Leading;
  }
}
