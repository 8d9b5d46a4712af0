/**
 What the events of a pipeline job say (crates/orbit-etl/src/engine.rs, `run`, `execute`):
 the start, then after every chunk the rows written so far, then how the job ended.
 */
module EtlEvents {
  import opened Wrappers
  import opened Arithmetic
  import opened EtlInsert
  import opened EtlJob

  /** Event `i` is the start, or says how many rows the first `i` chunks have brought into the table. */
  predicate Tells(c: Config, i: nat, e: Event) {
    if i == 0 then e == Started
    else
      var r := InsertRows(c.initial, Leading(c, i), c.ignore);
      e.Progress? && e.rowsRead == |c.rows| && r.Success? && |r.value.rows| == |c.initial.rows| + e.rowsWritten
  }

  predicate EventsTell(c: Config, s: State) {
    forall i :: 0 <= i < |s.events| && !IsTerminal(s.events[i]) ==> Tells(c, i, s.events[i])
  }

  predicate BeforeStarted(at: At) {
    at.Begin? || at.RunningRow? || at.SendStarted?
  }

  predicate AfterInsert(at: At) {
    at.Bump? || at.BumpRow? || at.SendProgress?
  }

  predicate AfterError(at: At) {
    (at.Returned? && !at.outcome.Done?) || at.Mark? || at.SendEnd?
  }

  predicate HasCompleted(s: State) {
    s.at == Returned(Done) || (s.at == Over && s.job.state == Completed)
  }

  /** One event for the start and one a chunk, with the completion one more; the last chunk committed has rows. */
  predicate EventsCounted(c: Config, s: State) {
    && (BeforeStarted(s.at) ==> |s.events| == 0)
    && (AfterInsert(s.at) ==> |s.events| == s.commits)
    && (AfterError(s.at) ==> |s.events| <= s.commits + 1)
    && (HasCompleted(s) ==> |s.events| == s.commits + 2)
    && (!BeforeStarted(s.at) && !AfterInsert(s.at) && !AfterError(s.at) && s.at != Returned(Done) && s.at != Over ==>
          |s.events| == s.commits + 1)
    && (s.commits > 0 ==> ChunkStart(c, s.commits - 1) < |c.rows|)
  }

  lemma EventsCountedKept(c: Config, s: State, ok: bool)
    requires EventsCounted(c, s) && Placed(c, s) && Tracked(c, s) && s.at != Over
    ensures EventsCounted(c, WorkMove(c, s, ok))
  {
    hide EventsCounted, Placed, Tracked, StartMove, ChunkMove, EndMove;
    if BeforeLoop(s.at) {
      EventsCountedAtStart(c, s, ok);
    } else if InLoop(s.at) {
      EventsCountedInLoop(c, s, ok);
    } else {
      EventsCountedAtEnd(c, s, ok);
    }
  }

  lemma EventsCountedAtStart(c: Config, s: State, ok: bool)
    requires EventsCounted(c, s) && Placed(c, s) && BeforeLoop(s.at)
    ensures EventsCounted(c, StartMove(c, s, ok))
  {
    hide ChunkStart;
  }

  lemma EventsCountedInLoop(c: Config, s: State, ok: bool)
    requires EventsCounted(c, s) && Placed(c, s) && InLoop(s.at)
    ensures EventsCounted(c, ChunkMove(c, s, ok))
  {
    hide Leading, InsertRows, ChunkStart, Chunk, InsertMove;
    if s.at.Inserting? {
      InsertMoveEnds(c, s, s.at.chunk, ok);
    }
  }

  lemma EventsCountedAtEnd(c: Config, s: State, ok: bool)
    requires EventsCounted(c, s) && Tracked(c, s) && !BeforeLoop(s.at) && !InLoop(s.at) && s.at != Over
    ensures EventsCounted(c, EndMove(c, s, ok))
  {
    hide ChunkStart;
  }

  /** Only a send adds an event: the start, the progress of a chunk, or the end. */
  lemma NewEvent(c: Config, s: State, ok: bool)
    requires s.at != Over
    ensures var s' := WorkMove(c, s, ok);
            || s'.events == s.events
            || (s.at.SendStarted? && s'.events == s.events + [Started])
            || (s.at.SendProgress? && s'.events == s.events + [Progress(|c.rows|, s.written)])
            || exists e :: IsTerminal(e) && s'.events == s.events + [e]
  {
    if s.at.Inserting? {
      InsertMoveEnds(c, s, s.at.chunk, ok);
    } else if s.at.SendCompleted? {
      assert IsTerminal(Finished(Completed, |c.rows|, s.written));
    } else if s.at.SendEnd? {
      assert WorkMove(c, s, ok).events == s.events + [WorkMove(c, s, ok).events[|s.events|]];
    }
    hide InsertMove, ChunkStart;
  }

  lemma EventsTellKept(c: Config, s: State, ok: bool)
    requires EventsTell(c, s) && EventsCounted(c, s) && Loaded(c, s) && Placed(c, s) && s.at != Over
    ensures EventsTell(c, WorkMove(c, s, ok))
  {
    NewEvent(c, s, ok);
    hide WorkMove, Leading, InsertRows, ChunkStart;
  }

  /** A cancel or the stream's holder sends nothing. */
  lemma OthersSendNothing(c: Config, s: State, s': State)
    requires EventsCounted(c, s) && EventsTell(c, s) && s' == s.(flag := s'.flag, unread := s'.unread, open := s'.open)
    ensures EventsCounted(c, s') && EventsTell(c, s')
  {
    hide ChunkStart, Tells;
  }

  lemma {:induction false} EventsAreCounted(c: Config, states: seq<State>, steps: seq<Step>, i: nat)
    requires IsRun(c, states, steps) && i < |states|
    ensures EventsCounted(c, states[i]) && EventsTell(c, states[i])
  {
    if i > 0 {
      EventsAreCounted(c, states, steps, i - 1);
      RunKeepsInv(c, states, steps, i - 1);
      var s, step := states[i - 1], steps[i - 1];
      assert Moves(c, s, step, states[i]);
      hide EventsCounted, EventsTell, WorkMove, Loaded, Placed, WholeAtEnd, Recorded, Tracked, EndsOnce;
      if step.Work? {
        EventsCountedKept(c, s, step.ok);
        EventsTellKept(c, s, step.ok);
      } else {
        OthersSendNothing(c, s, states[i]);
      }
    }
  }

  /**
   The events of a job, in every state of every run: the start comes first, each later one
   that is not the last word tells what the chunks so far have brought, and a job that completed
   has told every chunk before its completion.
   */
  lemma EventsTellTheLoad(c: Config, states: seq<State>, steps: seq<Step>, i: nat)
    requires IsRun(c, states, steps) && i < |states|
    ensures var events := states[i].events;
            && (forall k :: 0 <= k < |events| && !IsTerminal(events[k]) ==> Tells(c, k, events[k]))
            && (states[i].at == Over && states[i].job.state == Completed ==>
                  && |events| == states[i].commits + 2 && Leading(c, states[i].commits) == c.rows
                  && events[|events| - 1] == Finished(Completed, |c.rows|, states[i].written))
  {
    EventsAreCounted(c, states, steps, i);
    RunKeepsInv(c, states, steps, i);
    hide InsertRows, Leading, ChunkStart;
  }
}
