/**
 Whether a pipeline job ends (crates/orbit-etl/src/engine.rs, `run`, `execute`): its events go
 through a channel of 32 to a stream that the caller may leave unread.
 */
module EtlChannel {
  import opened Wrappers
  import opened Arithmetic
  import opened EtlInsert
  import opened EtlJob
  import opened EtlEvents

  // ---------------------------------------------------------------- termination

  /** Moves left to the worker, at most. */
  function MovesLeft(c: Config, s: State): int {
    var left := 5 * (|c.rows| - s.commits);
    match s.at
    case Begin => left + 15
    case RunningRow => left + 14
    case SendStarted => left + 13
    case Reading => left + 12
    case FirstPoll => left + 11
    case Polling(_) => left + 10
    case Inserting(_) => left + 9
    case Bump(_) => left + 13
    case BumpRow(_) => left + 12
    case SendProgress(_) => left + 11
    case Complete => 6
    case CompleteRow => 5
    case SendCompleted => 4
    case Returned(_) => 3
    case Mark(_) => 2
    case SendEnd(_) => 1
    case Over => 0
  }

  lemma StartBringsTheEnd(c: Config, s: State, ok: bool)
    requires s.commits <= |c.rows| && BeforeLoop(s.at)
    ensures 0 <= MovesLeft(c, StartMove(c, s, ok)) < MovesLeft(c, s)
  {
  }

  lemma ChunkBringsTheEnd(c: Config, s: State, ok: bool)
    requires s.commits <= |c.rows| && InLoop(s.at) && ChunkMove(c, s, ok).commits <= |c.rows|
    ensures 0 <= MovesLeft(c, ChunkMove(c, s, ok)) < MovesLeft(c, s)
  {
    if s.at.Inserting? {
      InsertMoveEnds(c, s, s.at.chunk, ok);
    }
    hide InsertMove, ChunkStart;
  }

  lemma EndBringsTheEnd(c: Config, s: State, ok: bool)
    requires !BeforeLoop(s.at) && !InLoop(s.at) && s.at != Over
    ensures 0 <= MovesLeft(c, EndMove(c, s, ok)) < MovesLeft(c, s)
  {
  }

  /** Every move of the worker brings its end nearer. */
  lemma WorkBringsTheEnd(c: Config, s: State, ok: bool)
    requires s.at != Over && s.commits <= |c.rows| && WorkMove(c, s, ok).commits <= |c.rows|
    ensures 0 <= MovesLeft(c, WorkMove(c, s, ok)) < MovesLeft(c, s)
  {
    hide MovesLeft, StartMove, ChunkMove, EndMove;
    if BeforeLoop(s.at) {
      StartBringsTheEnd(c, s, ok);
    } else if InLoop(s.at) {
      ChunkBringsTheEnd(c, s, ok);
    } else {
      EndBringsTheEnd(c, s, ok);
    }
  }

  lemma MovesLeftToOthers(c: Config, s: State)
    requires Placed(c, s) && s.at != Over
    ensures MovesLeft(c, s) > 0
  {
    hide Leading, ChunkStart;
    if s.at.Bump? || s.at.BumpRow? || s.at.SendProgress? {
      assert s.commits <= |c.rows|;
    }
  }

  lemma OthersKeepMovesLeft(c: Config, s: State, s': State)
    requires s'.at == s.at && s'.commits == s.commits
    ensures MovesLeft(c, s') == MovesLeft(c, s)
  {
  }

  lemma CommitsFit(c: Config, states: seq<State>, steps: seq<Step>, i: nat)
    requires IsRun(c, states, steps) && i < |states|
    ensures states[i].commits <= |c.rows|
  {
    RunKeepsInv(c, states, steps, i);
  }

  function Works(steps: seq<Step>): nat {
    if steps == [] then 0
    else Works(steps[..|steps| - 1]) + (if steps[|steps| - 1].Work? then 1 else 0)
  }

  lemma {:induction false} WorksAreBounded(c: Config, states: seq<State>, steps: seq<Step>, i: nat)
    requires IsRun(c, states, steps) && i < |states|
    ensures Works(steps[..i]) + MovesLeft(c, states[i]) <= 5 * |c.rows| + 15 && MovesLeft(c, states[i]) >= 0
  {
    if i > 0 {
      WorksAreBounded(c, states, steps, i - 1);
      CommitsFit(c, states, steps, i - 1);
      CommitsFit(c, states, steps, i);
      assert steps[..i][..i - 1] == steps[..i - 1];
      hide WorkMove, MovesLeft, Placed, Loaded, WholeAtEnd, Recorded, Tracked, EndsOnce;
      if steps[i - 1].Work? {
        WorkBringsTheEnd(c, states[i - 1], steps[i - 1].ok);
      } else {
        OthersKeepMovesLeft(c, states[i - 1], states[i]);
      }
    }
  }

  // ------------------------------------------------------------------ the channel

  /** The worker has a move, with the store answering `ok`. */
  ghost predicate CanWork(c: Config, s: State, ok: bool) {
    exists s' :: Moves(c, s, Work(ok), s')
  }

  ghost predicate CanReceive(c: Config, s: State) {
    exists s' :: Moves(c, s, Receive, s')
  }

  /** The worker waits at a send for room in the channel. */
  predicate Waits(s: State) {
    AtSend(s.at) && s.open && s.unread == CAPACITY
  }

  lemma {:induction false} UnreadFits(c: Config, states: seq<State>, steps: seq<Step>, i: nat)
    requires IsRun(c, states, steps) && i < |states|
    ensures states[i].unread <= CAPACITY
    ensures states[i].unread <= |states[i].events|
  {
    hide WorkMove;
    if i > 0 {
      UnreadFits(c, states, steps, i - 1);
      assert Moves(c, states[i - 1], steps[i - 1], states[i]);
      if steps[i - 1].Work? {
        WorkSends(c, states[i - 1], steps[i - 1].ok);
      }
    }
  }

  /** A worker that is not over cannot move exactly while it waits at a send, the stream open and 32 events unread. */
  lemma CannotMoveIffWaits(c: Config, states: seq<State>, steps: seq<Step>, i: nat, ok: bool)
    requires IsRun(c, states, steps) && i < |states| && states[i].at != Over
    ensures !CanWork(c, states[i], ok) <==> Waits(states[i])
  {
    UnreadFits(c, states, steps, i);
    hide WorkMove, IsRun;
    var s := states[i];
    if !Waits(s) {
      assert Moves(c, s, Work(ok), WorkMove(c, s, ok));
    }
  }

  /** A worker that waits stays where it is until an event is read or the stream closed: no cancel reaches it. */
  lemma {:induction false} WaitsUntilReadOrClosed(c: Config, states: seq<State>, steps: seq<Step>, i: nat, j: nat)
    requires IsRun(c, states, steps) && i <= j < |states| && Waits(states[i])
    requires forall k :: i <= k < j ==> steps[k] != Receive && steps[k] != CloseStream
    ensures states[j] == states[i].(flag := states[j].flag)
  {
    if i < j {
      WaitsUntilReadOrClosed(c, states, steps, i, j - 1);
      assert Moves(c, states[j - 1], steps[j - 1], states[j]);
      hide WorkMove;
    }
  }

  function Receives(steps: seq<Step>): nat {
    if steps == [] then 0
    else Receives(steps[..|steps| - 1]) + (if steps[|steps| - 1].Receive? then 1 else 0)
  }

  /** A send adds one event, unread while the stream is open; no other move touches the channel. */
  lemma WorkSends(c: Config, s: State, ok: bool)
    requires s.at != Over
    ensures var s' := WorkMove(c, s, ok);
            && |s'.events| == |s.events| + (if AtSend(s.at) then 1 else 0)
            && s'.unread == s.unread + (if AtSend(s.at) && s.open then 1 else 0)
            && s'.open == s.open
  {
    if s.at.Inserting? {
      InsertMoveEnds(c, s, s.at.chunk, ok);
    }
    hide InsertMove, ChunkStart;
  }

  lemma {:induction false} ReceivesAreBounded(c: Config, states: seq<State>, steps: seq<Step>, i: nat)
    requires IsRun(c, states, steps) && i < |states|
    ensures Receives(steps[..i]) + states[i].unread <= |states[i].events| <= Works(steps[..i])
  {
    hide WorkMove;
    if i > 0 {
      ReceivesAreBounded(c, states, steps, i - 1);
      assert steps[..i][..i - 1] == steps[..i - 1];
      assert Moves(c, states[i - 1], steps[i - 1], states[i]);
      if steps[i - 1].Work? {
        WorkSends(c, states[i - 1], steps[i - 1].ok);
      }
    }
  }

  /**
   The worker makes at most five moves a row and fifteen more, and the holder of the stream
   reads at most as many events. When neither has a move left the worker is over: so it ends
   whenever the stream is read to the end, or closed.
   */
  lemma EndsWhenReadOrClosed(c: Config, states: seq<State>, steps: seq<Step>, i: nat)
    requires IsRun(c, states, steps) && i < |states|
    ensures Receives(steps[..i]) <= Works(steps[..i]) <= 5 * |c.rows| + 15
    ensures Works(steps[..i]) == 5 * |c.rows| + 15 ==> states[i].at == Over
    ensures forall ok :: !CanWork(c, states[i], ok) && !CanReceive(c, states[i]) ==> states[i].at == Over
    ensures forall ok :: !states[i].open && states[i].at != Over ==> CanWork(c, states[i], ok)
  {
    RunKeepsInv(c, states, steps, i);
    WorksAreBounded(c, states, steps, i);
    ReceivesAreBounded(c, states, steps, i);
    hide InsertRows, Leading;
    var s := states[i];
    if s.at != Over {
      MovesLeftToOthers(c, s);
      CannotMoveIffWaits(c, states, steps, i, true);
      CannotMoveIffWaits(c, states, steps, i, false);
      if Waits(s) {
        assert Moves(c, s, Receive, s.(unread := s.unread - 1));
      }
    }
  }

  // ------------------------------------------- when an unread stream stops the worker

  /** More than thirty chunks, of which the first thirty-one can be inserted. */
  predicate OutgrowsChannel(c: Config) {
    && ChunkStart(c, 30) < |c.rows|
    && InsertRows(c.initial, Leading(c, 31), c.ignore).Success?
  }

  lemma PrefixInserts(c: Config, j: nat, k: nat)
    requires j <= k && InsertRows(c.initial, Leading(c, k), c.ignore).Success?
    ensures InsertRows(c.initial, Leading(c, j), c.ignore).Success?
  {
    StartsGrow(c, j, k);
    var m := Min(ChunkStart(c, j), |c.rows|);
    assert Leading(c, k) == Leading(c, j) + Leading(c, k)[m..];
    InsertConcat(c.initial, Leading(c, j), Leading(c, k)[m..], c.ignore);
  }

  lemma StartsGrow(c: Config, j: nat, k: nat)
    requires j <= k
    ensures ChunkStart(c, j) <= ChunkStart(c, k)
  {
    ProductMonotone(j, k, Batch(c));
  }

  lemma WaitsOnlyIfOutgrown(c: Config, states: seq<State>, steps: seq<Step>, i: nat)
    requires IsRun(c, states, steps) && i < |states| && Waits(states[i])
    ensures OutgrowsChannel(c)
  {
    UnreadFits(c, states, steps, i);
    EventsAreCounted(c, states, steps, i);
    TableIsLeadingChunks(c, states, steps, i);
    var n := states[i].commits;
    hide IsRun, ChunkStart, Leading, InsertRows;
    StartsGrow(c, CAPACITY - 2, n - 1);
    PrefixInserts(c, CAPACITY - 1, n);
  }

  /** A run without cancels or failures of the store, whose stream nobody reads. */
  predicate UnreadRun(c: Config, states: seq<State>, steps: seq<Step>) {
    && IsRun(c, states, steps)
    && forall k :: 0 <= k < |steps| ==> steps[k] == Work(true)
  }

  /** One move more. */
  lemma Extend(c: Config, states: seq<State>, steps: seq<Step>) returns (states': seq<State>, steps': seq<Step>)
    requires UnreadRun(c, states, steps)
    requires var s := states[|states| - 1]; s.at != Over && (AtSend(s.at) ==> CanSend(s))
    ensures UnreadRun(c, states', steps')
    ensures states'[|states'| - 1] == WorkMove(c, states[|states| - 1], true)
  {
    var s' := WorkMove(c, states[|states| - 1], true);
    states', steps' := states + [s'], steps + [Work(true)];
    hide WorkMove;
    forall i | 0 <= i < |steps'|
      ensures Moves(c, states'[i], steps'[i], states'[i + 1])
    {
      if i < |steps| {
        assert states'[i] == states[i] && states'[i + 1] == states[i + 1];
      }
    }
  }

  /** Before chunk `k` with every event so far unread. */
  predicate AtPoll(s: State, k: nat) {
    s.at == Polling(k) && s.commits == k && s.unread == k + 1 && s.open && !s.flag
  }

  /** The five moves of a chunk that inserts. */
  lemma ChunkMoves(c: Config, s: State, k: nat) returns (s1: State, s2: State, s3: State, s4: State, s5: State)
    requires AtPoll(s, k) && ChunkStart(c, k) < |c.rows|
    requires var s' := InsertMove(c, s.(at := Inserting(k)), k, true);
             s'.at == Bump(k) && s'.commits == k + 1 && s'.unread == s.unread && s'.open == s.open && s'.flag == s.flag
    ensures s1 == WorkMove(c, s, true) && s1.at == Inserting(k)
    ensures s2 == WorkMove(c, s1, true) && s2.at == Bump(k)
    ensures s3 == WorkMove(c, s2, true) && s3.at == BumpRow(k)
    ensures s4 == WorkMove(c, s3, true) && s4.at == SendProgress(k) && s4.unread == s.unread
    ensures s5 == WorkMove(c, s4, true) && AtPoll(s5, k + 1)
  {
    hide InsertRows, ChunkStart, Chunk, InsertMove, StartMove, EndMove;
    s1 := WorkMove(c, s, true);
    s2 := WorkMove(c, s1, true);
    s3 := WorkMove(c, s2, true);
    s4 := WorkMove(c, s3, true);
    s5 := WorkMove(c, s4, true);
  }

  /** One chunk inserted, and its progress event sent into the channel. */
  lemma LoopOnce(c: Config, states: seq<State>, steps: seq<Step>, k: nat) returns (states': seq<State>, steps': seq<Step>)
    requires UnreadRun(c, states, steps) && AtPoll(states[|states| - 1], k) && k < CAPACITY - 1
    requires ChunkStart(c, k) < |c.rows| && InsertRows(c.initial, Leading(c, k + 1), c.ignore).Success?
    ensures UnreadRun(c, states', steps') && AtPoll(states'[|states'| - 1], k + 1)
  {
    ChunkInserts(c, states, steps, k);
    var s1, s2, s3, s4, s5 := ChunkMoves(c, states[|states| - 1], k);
    hide InsertRows, ChunkStart, Leading, Chunk, UnreadRun, WorkMove, InsertMove;
    states', steps' := Extend(c, states, steps);
    states', steps' := Extend(c, states', steps');
    states', steps' := Extend(c, states', steps');
    states', steps' := Extend(c, states', steps');
    states', steps' := Extend(c, states', steps');
  }

  lemma ChunkInserts(c: Config, states: seq<State>, steps: seq<Step>, k: nat)
    requires IsRun(c, states, steps) && states[|states| - 1].commits == k
    requires ChunkStart(c, k) < |c.rows| && InsertRows(c.initial, Leading(c, k + 1), c.ignore).Success?
    ensures var s := states[|states| - 1].(at := Inserting(k));
            var s' := InsertMove(c, s, k, true);
            s'.at == Bump(k) && s'.commits == k + 1 && s'.unread == s.unread && s'.open == s.open && s'.flag == s.flag
  {
    TableIsLeadingChunks(c, states, steps, |states| - 1);
    var t := states[|states| - 1].table;
    NextChunk(c, k);
    InsertConcat(c.initial, Leading(c, k), Chunk(c, k), c.ignore);
    InsertOnlyAppends(t, Chunk(c, k), c.ignore);
    hide InsertRows, ChunkStart, Leading, Chunk;
  }

  lemma {:induction false} ReachPoll(c: Config, k: nat) returns (states: seq<State>, steps: seq<Step>)
    requires k <= CAPACITY - 1 && (k > 0 ==> ChunkStart(c, k - 1) < |c.rows|)
    requires InsertRows(c.initial, Leading(c, k), c.ignore).Success?
    ensures UnreadRun(c, states, steps) && AtPoll(states[|states| - 1], k)
  {
    if k == 0 {
      states, steps := [Start(c)], [];
      assert UnreadRun(c, states, steps);
      hide InsertRows, ChunkStart, Leading, Chunk, UnreadRun, InsertMove;
      states, steps := Extend(c, states, steps);
      states, steps := Extend(c, states, steps);
      states, steps := Extend(c, states, steps);
      states, steps := Extend(c, states, steps);
      states, steps := Extend(c, states, steps);
    } else {
      if k > 1 {
        StartsGrow(c, k - 2, k - 1);
      }
      PrefixInserts(c, k - 1, k);
      states, steps := ReachPoll(c, k - 1);
      states, steps := LoopOnce(c, states, steps, k - 1);
    }
  }

  /** The worker's next moves lead to a send, of a progress, completion or failure event. */
  lemma NextSend(c: Config, s: State, s1: State, s2: State, s3: State)
    requires AtPoll(s, CAPACITY - 1) && s1 == WorkMove(c, s, true) && !AtSend(s1.at)
    requires s1.at != Over && s2 == WorkMove(c, s1, true) && s2.at != Over && s3 == WorkMove(c, s2, true)
    ensures !AtSend(s2.at)
    ensures Waits(s3) || (!AtSend(s3.at) && s3.at != Over && Waits(WorkMove(c, s3, true)))
  {
    hide InsertRows, ChunkStart, Leading, Chunk, InsertMove, StartMove;
    InsertMoveEnds(c, s1, CAPACITY - 1, true);
  }

  lemma AfterPoll(c: Config, s: State)
    requires AtPoll(s, CAPACITY - 1)
    ensures var s1 := WorkMove(c, s, true);
            !AtSend(s1.at) && s1.at != Over && !AtSend(WorkMove(c, s1, true).at) && WorkMove(c, s1, true).at != Over
  {
    InsertMoveEnds(c, WorkMove(c, s, true), CAPACITY - 1, true);
    hide InsertRows, ChunkStart, Leading, Chunk, InsertMove;
  }

  /** From a full channel the worker goes on to its next event, and waits there. */
  lemma ReachWait(c: Config) returns (states: seq<State>, steps: seq<Step>)
    requires OutgrowsChannel(c)
    ensures UnreadRun(c, states, steps) && Waits(states[|states| - 1])
  {
    states, steps := ReachPoll(c, CAPACITY - 1);
    var s := states[|states| - 1];
    AfterPoll(c, s);
    var s1 := WorkMove(c, s, true);
    var s2 := WorkMove(c, s1, true);
    var s3 := WorkMove(c, s2, true);
    NextSend(c, s, s1, s2, s3);
    hide InsertRows, ChunkStart, Leading, UnreadRun, WorkMove;
    states, steps := Extend(c, states, steps);
    states, steps := Extend(c, states, steps);
    states, steps := Extend(c, states, steps);
    if !Waits(s3) {
      states, steps := Extend(c, states, steps);
    }
  }

  lemma LastOfRun(c: Config, states: seq<State>, steps: seq<Step>)
    requires IsRun(c, states, steps)
    ensures |states| > 0
  {
  }

  /** Some run leaves the worker waiting, even without cancels or failures, exactly when the rows outgrow the channel. */
  lemma WorkerNeverWaitsIff(c: Config)
    ensures !OutgrowsChannel(c) <==>
              forall states, steps, i :: IsRun(c, states, steps) && 0 <= i < |states| ==> !Waits(states[i])
  {
    hide OutgrowsChannel, IsRun;
    if OutgrowsChannel(c) {
      var states, steps := ReachWait(c);
      var last := |states| - 1;
      assert IsRun(c, states, steps) && 0 <= last < |states| && Waits(states[last]) by {
        LastOfRun(c, states, steps);
      }
    }
    forall states, steps, i | IsRun(c, states, steps) && 0 <= i < |states| && Waits(states[i])
      ensures OutgrowsChannel(c)
    {
      WaitsOnlyIfOutgrown(c, states, steps, i);
    }
  }
}
