/**
 Driving one job through its lifecycle (apps/orbit-openeo/src/runner.rs, `run_job`).

 The world holds the job's row, the stored files and the published events. Every store
 or file write consults an oracle that may refuse it, so what is proved holds for every
 pattern of failures. `history` has the state after each effect: the crash points.
 */
module JobRunner {
  import opened Wrappers
  import opened JobStores

  datatype EventKind = Started | Progress | Completed | Failed

  datatype ExecResult =
    | TimedOut
    | Produced(contentType: string, body: seq<char>)
    | ExecFailed(detail: string)

  datatype Outcome = OutcomeFinished | OutcomeFailed(detail: string) | OutcomeStoreError

  /** What survives a crash. */
  datatype Snapshot = Snapshot(status: JobStatus, assets: seq<Asset>, files: map<string, seq<char>>, events: seq<EventKind>)

  predicate IsTerminal(e: EventKind) {
    e == Completed || e == Failed
  }

  /** Some recorded asset names a stored file of the recorded size. */
  predicate Backed(assets: seq<Asset>, files: map<string, seq<char>>) {
    exists i :: 0 <= i < |assets| && assets[i].name in files && |files[assets[i].name]| == assets[i].size
  }

  lemma LastAssetBacks(assets: seq<Asset>, files: map<string, seq<char>>, name: string, mediaType: string, body: seq<char>)
    requires assets != [] && assets[|assets| - 1] == Asset(name, mediaType, |body|) && name in files && files[name] == body
    ensures Backed(assets, files)
  {
  }

  predicate FinishedIsBacked(s: Snapshot) {
    s.status == Finished ==> Backed(s.assets, s.files)
  }

  predicate TerminalOnlyLast(events: seq<EventKind>) {
    forall i :: 0 <= i < |events| - 1 ==> !IsTerminal(events[i])
  }

  /** The characters with the Unicode property White_Space. */
  predicate IsWhitespace(c: char) {
    var n := c as int;
    || 0x9 <= n <= 0xd || n == 0x20 || n == 0x85 || n == 0xa0 || n == 0x1680 || 0x2000 <= n <= 0x200a
    || n == 0x2028 || n == 0x2029 || n == 0x202f || n == 0x205f || n == 0x3000
  }

  function TrimEnd(s: string): string {
    if s != "" && IsWhitespace(s[|s| - 1]) then TrimEnd(s[..|s| - 1]) else s
  }

  function TrimStart(s: string): string {
    if s != "" && IsWhitespace(s[0]) then TrimStart(s[1..]) else s
  }

  function BeforeSemicolon(s: string): string {
    if s == "" || s[0] == ';' then "" else [s[0]] + BeforeSemicolon(s[1..])
  }

  /** The asset name for a media type, whose parameters are ignored. */
  function DefaultAssetName(contentType: string): string {
    var base := TrimEnd(TrimStart(BeforeSemicolon(contentType)));
    "result." +
    if base == "application/json" then "json"
    else if base == "image/tiff" || base == "image/geotiff" then "tif"
    else if base == "image/png" then "png"
    else if base == "application/x-netcdf" then "nc"
    else "bin"
  }

  predicate IsBlank(s: string) {
    forall i :: 0 <= i < |s| ==> IsWhitespace(s[i])
  }

  /** The media type with whitespace around it, and whatever follows a semicolon. */
  predicate Spells(contentType: string, before: string, base: string, after: string, parameters: string) {
    && contentType == before + base + after + parameters
    && IsBlank(before) && IsBlank(after)
    && (parameters == "" || parameters[0] == ';')
  }

  ghost predicate IsOfType(contentType: string, base: string) {
    exists before, after, parameters :: Spells(contentType, before, base, after, parameters)
  }

  /** No whitespace at the ends and no parameters. */
  predicate IsBare(base: string) {
    base != "" && !IsWhitespace(base[0]) && !IsWhitespace(base[|base| - 1]) && ';' !in base
  }

  lemma {:induction false} BeforeSemicolonParts(s: string) returns (parameters: string)
    ensures s == BeforeSemicolon(s) + parameters && (parameters == "" || parameters[0] == ';')
  {
    if s == "" || s[0] == ';' {
      parameters := s;
    } else {
      parameters := BeforeSemicolonParts(s[1..]);
      assert s == [s[0]] + s[1..];
    }
  }

  lemma {:induction false} BeforeSemicolonIs(s: string, parameters: string)
    requires ';' !in s && (parameters == "" || parameters[0] == ';')
    ensures BeforeSemicolon(s + parameters) == s
  {
    if s == "" {
      assert s + parameters == parameters;
    } else {
      assert (s + parameters)[1..] == s[1..] + parameters;
      BeforeSemicolonIs(s[1..], parameters);
    }
  }

  lemma {:induction false} TrimStartParts(s: string) returns (before: string)
    ensures s == before + TrimStart(s) && IsBlank(before)
  {
    before := "";
    if s != "" && IsWhitespace(s[0]) {
      var rest := TrimStartParts(s[1..]);
      before := [s[0]] + rest;
      assert s == [s[0]] + s[1..];
    }
  }

  lemma {:induction false} TrimEndParts(s: string) returns (after: string)
    ensures s == TrimEnd(s) + after && IsBlank(after)
  {
    after := "";
    if s != "" && IsWhitespace(s[|s| - 1]) {
      var rest := TrimEndParts(s[..|s| - 1]);
      after := rest + [s[|s| - 1]];
      assert s == s[..|s| - 1] + [s[|s| - 1]];
    }
  }

  lemma {:induction false} TrimStartIs(before: string, s: string)
    requires IsBlank(before) && s != "" && !IsWhitespace(s[0])
    ensures TrimStart(before + s) == s
  {
    if before == "" {
      assert before + s == s;
    } else {
      assert (before + s)[1..] == before[1..] + s;
      TrimStartIs(before[1..], s);
    }
  }

  lemma {:induction false} TrimEndIs(s: string, after: string)
    requires IsBlank(after) && s != "" && !IsWhitespace(s[|s| - 1])
    ensures TrimEnd(s + after) == s
  {
    if after == "" {
      assert s + after == s;
    } else {
      var last := |after| - 1;
      assert (s + after)[..|s| + last] == s + after[..last];
      TrimEndIs(s, after[..last]);
    }
  }

  lemma TypeIsTrimmed(contentType: string, base: string)
    requires IsBare(base)
    ensures IsOfType(contentType, base) <==> TrimEnd(TrimStart(BeforeSemicolon(contentType))) == base
  {
    TrimmedIsSpelled(contentType);
    hide TrimEnd, TrimStart, BeforeSemicolon, IsBare, Spells;
    if before, after, parameters :| Spells(contentType, before, base, after, parameters) {
      SpelledIsTrimmed(contentType, before, base, after, parameters);
    }
  }

  lemma TrimmedIsSpelled(contentType: string)
    ensures IsOfType(contentType, TrimEnd(TrimStart(BeforeSemicolon(contentType))))
  {
    hide TrimEnd, TrimStart, BeforeSemicolon, IsBlank;
    var shown := BeforeSemicolon(contentType);
    var parameters := BeforeSemicolonParts(contentType);
    var before := TrimStartParts(shown);
    var after := TrimEndParts(TrimStart(shown));
    var base := TrimEnd(TrimStart(shown));
    assert contentType == before + base + after + parameters;
    assert Spells(contentType, before, base, after, parameters);
  }

  lemma SpelledIsTrimmed(contentType: string, before: string, base: string, after: string, parameters: string)
    requires IsBare(base) && Spells(contentType, before, base, after, parameters)
    ensures TrimEnd(TrimStart(BeforeSemicolon(contentType))) == base
  {
    var shown := before + base + after;
    assert forall i :: 0 <= i < |shown| ==>
             shown[i] == if i < |before| then before[i] else if i < |before| + |base| then base[i - |before|] else after[i - |before| - |base|];
    assert !IsWhitespace(';');
    assert ';' !in shown;
    BeforeSemicolonIs(shown, parameters);
    assert shown == before + (base + after);
    TrimStartIs(before, base + after);
    TrimEndIs(base, after);
  }

  const KNOWN_TYPES: set<string> := {"application/json", "image/tiff", "image/geotiff", "image/png", "application/x-netcdf"}

  lemma KnownTypesAreBare()
    ensures forall base :: base in KNOWN_TYPES ==> IsBare(base)
  {
  }

  /** The name ends as the media type does, whatever whitespace and parameters come with it. */
  lemma AssetNameFollowsType(contentType: string)
    ensures IsOfType(contentType, "application/json") ==> DefaultAssetName(contentType) == "result.json"
    ensures IsOfType(contentType, "image/tiff") || IsOfType(contentType, "image/geotiff") ==> DefaultAssetName(contentType) == "result.tif"
    ensures IsOfType(contentType, "image/png") ==> DefaultAssetName(contentType) == "result.png"
    ensures IsOfType(contentType, "application/x-netcdf") ==> DefaultAssetName(contentType) == "result.nc"
    ensures (forall base | base in KNOWN_TYPES :: !IsOfType(contentType, base)) ==> DefaultAssetName(contentType) == "result.bin"
  {
    KnownTypesAreBare();
    hide IsBare, IsOfType, TrimStart, TrimEnd, BeforeSemicolon;
    forall base | base in KNOWN_TYPES
      ensures IsOfType(contentType, base) <==> TrimEnd(TrimStart(BeforeSemicolon(contentType))) == base
    {
      TypeIsTrimmed(contentType, base);
    }
  }

  /** Which write is the last of the status, once the result is being stored from write `n` on. */
  function FinalAfterPut(writes: nat -> bool, n: nat): nat {
    if !writes(n) then n + 1 else if !writes(n + 1) then n + 2 else n + 3
  }

  /** Which write is the last of the status, in a run that begins with write `n` and comes to compute. */
  function FinalStatusWrite(writes: nat -> bool, n: nat, execute: ExecResult): nat {
    match execute
    case TimedOut => n + 5
    case ExecFailed(_) => n + 6
    case Produced(_, _) => FinalAfterPut(writes, n + 5)
  }

  /** The writes that a job needs to finish: its statuses, the result's bytes and the asset. */
  predicate Passes(writes: nat -> bool, n: nat) {
    writes(n) && writes(n + 1) && writes(n + 5) && writes(n + 6) && writes(n + 8)
  }

  class World {
    /** Whether the n-th write succeeds. */
    const writes: nat -> bool
    var tick: nat
    var status: JobStatus
    var progress: real
    var assets: seq<Asset>
    var logs: seq<string>
    var files: map<string, seq<char>>
    var events: seq<EventKind>
    /** The outcomes of the status writes so far. */
    var statusWrites: seq<bool>
    ghost var history: seq<Snapshot>

    constructor (oracle: nat -> bool, status0: JobStatus, assets0: seq<Asset>, files0: map<string, seq<char>>)
      requires status0 != Finished
      ensures writes == oracle && tick == 0 && status == status0 && assets == assets0 && files == files0
      ensures events == [] && logs == [] && statusWrites == []
      ensures Recorded()
    {
      writes := oracle;
      tick, status, progress, assets, files := 0, status0, 0.0, assets0, files0;
      events, logs, statusWrites := [], [], [];
      history := [Snapshot(status0, assets0, files0, [])];
    }

    ghost function Now(): Snapshot
      reads this
    {
      Snapshot(status, assets, files, events)
    }

    /** The history ends with the present state, and a finished job was backed at every point of it. */
    ghost predicate Recorded()
      reads this
    {
      && history != []
      && history[|history| - 1] == Now()
      && forall i :: 0 <= i < |history| ==> FinishedIsBacked(history[i])
    }

    ghost predicate AllSucceed() {
      forall n :: writes(n)
    }

    method SetStatus(s: JobStatus) returns (ok: bool)
      requires Recorded() && (s == Finished ==> Backed(assets, files))
      modifies this
      ensures Recorded() && old(history) <= history && tick == old(tick) + 1
      ensures ok == writes(old(tick)) && status == (if ok then s else old(status))
      ensures statusWrites == old(statusWrites) + [ok]
      ensures unchanged(`progress, `assets, `files, `events, `logs)
    {
      ok := writes(tick);
      tick := tick + 1;
      statusWrites := statusWrites + [ok];
      if ok {
        status := s;
      }
      history := history + [Now()];
    }

    method SetProgress(p: real)
      requires Recorded()
      modifies this
      ensures Recorded() && old(history) <= history && tick == old(tick) + 1
      ensures progress == if writes(old(tick)) then (if p < 0.0 then 0.0 else if p > 100.0 then 100.0 else p) else old(progress)
      ensures unchanged(`status, `assets, `files, `events, `statusWrites, `logs)
    {
      if writes(tick) {
        progress := if p < 0.0 then 0.0 else if p > 100.0 then 100.0 else p;
      }
      tick := tick + 1;
      history := history + [Now()];
    }

    method AppendLog(message: string)
      requires Recorded()
      modifies this
      ensures Recorded() && old(history) <= history && tick == old(tick) + 1
      ensures logs == if writes(old(tick)) then old(logs) + [message] else old(logs)
      ensures unchanged(`status, `assets, `files, `events, `statusWrites, `progress)
    {
      if writes(tick) {
        logs := logs + [message];
      }
      tick := tick + 1;
      history := history + [Now()];
    }

    method PutFile(name: string, body: seq<char>) returns (ok: bool)
      requires Recorded() && status != Finished
      modifies this
      ensures Recorded() && old(history) <= history && tick == old(tick) + 1
      ensures ok == writes(old(tick)) && files == if ok then old(files)[name := body] else old(files)
      ensures unchanged(`status, `assets, `progress, `events, `statusWrites, `logs)
    {
      ok := writes(tick);
      tick := tick + 1;
      if ok {
        files := files[name := body];
      }
      history := history + [Now()];
    }

    method AddAsset(a: Asset) returns (ok: bool)
      requires Recorded() && status != Finished
      modifies this
      ensures Recorded() && old(history) <= history && tick == old(tick) + 1
      ensures ok == writes(old(tick)) && assets == if ok then old(assets) + [a] else old(assets)
      ensures unchanged(`status, `files, `progress, `events, `statusWrites, `logs)
    {
      ok := writes(tick);
      tick := tick + 1;
      if ok {
        assets := assets + [a];
      }
      history := history + [Now()];
    }

    method Publish(e: EventKind)
      requires Recorded()
      modifies this
      ensures Recorded() && old(history) <= history
      ensures events == old(events) + [e]
      ensures unchanged(`status, `assets, `files, `progress, `statusWrites, `logs, `tick)
    {
      events := events + [e];
      history := history + [Now()];
    }

    /** A run that ends in failure tries to record it and says so, exactly once. */
    method Fail()
      requires Recorded() && status == Running && |statusWrites| == 2
      modifies this
      ensures Recorded() && old(history) <= history
      ensures events == old(events) + [Failed]
      ensures |statusWrites| == 3 && statusWrites[..2] == old(statusWrites) && statusWrites[2] == writes(old(tick))
      ensures status == if writes(old(tick)) then Error else Running
    {
      var _ := SetStatus(Error);
      Publish(Failed);
    }

    /** From submission to the start of the computation. */
    method Begin() returns (ok: bool)
      requires Recorded() && status != Finished && events == [] && statusWrites == []
      modifies this
      ensures Recorded() && old(history) <= history
      ensures unchanged(`assets, `files)
      ensures ok <==> writes(old(tick)) && writes(old(tick) + 1)
      ensures ok ==> tick == old(tick) + 4 && statusWrites == [true, true] && status == Running && events == [Started, Progress]
      ensures !ok ==>
                if writes(old(tick)) then statusWrites == [true, false] && status == Queued && events == [Started]
                else statusWrites == [false] && status == old(status) && events == []
      ensures AllSucceed() ==> ok && logs == old(logs) + ["job started"]
    {
      hide Recorded;
      ok := SetStatus(Queued);
      if !ok {
        return;
      }
      Publish(Started);
      ok := SetStatus(Running);
      if !ok {
        return;
      }
      AppendLog("job started");
      SetProgress(10.0);
      Publish(Progress);
    }

    /** Declares the job finished, its result being on record. */
    method Declare() returns (outcome: Outcome)
      requires Recorded() && status == Running && Backed(assets, files)
      modifies this
      ensures Recorded() && old(history) <= history && unchanged(`assets, `files)
      ensures statusWrites == old(statusWrites) + [writes(old(tick) + 1)]
      ensures status == if writes(old(tick) + 1) then Finished else Running
      ensures outcome == if writes(old(tick) + 1) then OutcomeFinished else OutcomeStoreError
      ensures events == old(events) + (if writes(old(tick) + 1) then [Progress, Completed] else [Progress])
      ensures AllSucceed() ==> progress == 100.0 && logs == old(logs) + ["job finished"]
    {
      hide Recorded, Backed;
      SetProgress(95.0);
      Publish(Progress);
      var ok := SetStatus(Finished);
      if !ok {
        return OutcomeStoreError;
      }
      AppendLog("job finished");
      SetProgress(100.0);
      Publish(Completed);
      return OutcomeFinished;
    }

    /** Stores the result, records it, and only then declares the job finished. */
    method Persist(contentType: string, body: seq<char>) returns (outcome: Outcome)
      requires Recorded() && status == Running && |statusWrites| == 2
      modifies this
      ensures Recorded() && old(history) <= history
      ensures var last := FinalAfterPut(writes, old(tick));
              && statusWrites == old(statusWrites) + [writes(last)]
              && status == (if !writes(last) then Running else if outcome == OutcomeFinished then Finished else Error)
      ensures outcome == OutcomeFinished <==> writes(old(tick)) && writes(old(tick) + 1) && writes(old(tick) + 3)
      ensures outcome == OutcomeFinished ==> status == Finished
      ensures outcome == OutcomeFinished ==>
                && events == old(events) + [Progress, Completed]
                && files == old(files)[DefaultAssetName(contentType) := body]
                && assets == old(assets) + [Asset(DefaultAssetName(contentType), contentType, |body|)]
      ensures outcome.OutcomeFailed? ==> events == old(events) + [Failed]
      ensures outcome.OutcomeStoreError? ==> events == old(events) + [Failed] || events == old(events) + [Progress]
      ensures AllSucceed() ==> outcome == OutcomeFinished && progress == 100.0 && logs == old(logs) + ["job finished"]
    {
      hide Recorded, DefaultAssetName, Backed;
      var name := DefaultAssetName(contentType);
      var ok := PutFile(name, body);
      if !ok {
        Fail();
        return OutcomeFailed("file_store");
      }
      ok := AddAsset(Asset(name, contentType, |body|));
      if !ok {
        Fail();
        return OutcomeStoreError;
      }
      LastAssetBacks(assets, files, name, contentType, body);
      outcome := Declare();
    }

    /**
     Runs the job. At most one terminal event is published, and last; completion is
     announced, returned and stored together; and which writes the store refuses decides
     whether the job finishes, and whether it is left neither finished nor in error.
     */
    method RunJob(execute: ExecResult) returns (outcome: Outcome)
      requires Recorded() && status != Finished && events == [] && statusWrites == []
      modifies this
      ensures Recorded() && old(history) <= history
      ensures TerminalOnlyLast(events)
      ensures Completed in events <==> outcome == OutcomeFinished
      ensures status == Finished <==> outcome == OutcomeFinished
      ensures outcome.OutcomeFailed? ==> events != [] && events[|events| - 1] == Failed
      ensures events != [] ==> events[0] == Started
      ensures outcome == OutcomeFinished <==> execute.Produced? && Passes(writes, old(tick))
      ensures status == Finished || status == Error <==>
                if writes(old(tick)) then writes(old(tick) + 1) && writes(FinalStatusWrite(writes, old(tick), execute))
                else old(status) == Error
      ensures outcome == OutcomeFinished ==>
                && execute.Produced?
                && files == old(files)[DefaultAssetName(execute.contentType) := execute.body]
                && assets == old(assets) + [Asset(DefaultAssetName(execute.contentType), execute.contentType, |execute.body|)]
      ensures AllSucceed() && execute.Produced? ==>
                && outcome == OutcomeFinished && progress == 100.0
                && events == [Started, Progress, Progress, Progress, Completed]
                && logs == old(logs) + ["job started", "job finished"]
    {
      hide Recorded, DefaultAssetName, FinalStatusWrite;
      var ok := Begin();
      if !ok {
        return OutcomeStoreError;
      }
      outcome := Compute(execute);
    }

    /** From the computation to the end. */
    method Compute(execute: ExecResult) returns (outcome: Outcome)
      requires Recorded() && status == Running && |statusWrites| == 2 && events == [Started, Progress] && tick >= 4
      modifies this
      ensures Recorded() && old(history) <= history
      ensures TerminalOnlyLast(events) && events != [] && events[0] == Started
      ensures Completed in events <==> outcome == OutcomeFinished
      ensures outcome.OutcomeFailed? ==> events[|events| - 1] == Failed
      ensures status == if !writes(FinalStatusWrite(writes, old(tick) - 4, execute)) then Running
                        else if outcome == OutcomeFinished then Finished else Error
      ensures outcome == OutcomeFinished <==>
                execute.Produced? && writes(old(tick) + 1) && writes(old(tick) + 2) && writes(old(tick) + 4)
      ensures outcome == OutcomeFinished ==> status == Finished
      ensures outcome == OutcomeFinished ==>
                && files == old(files)[DefaultAssetName(execute.contentType) := execute.body]
                && assets == old(assets) + [Asset(DefaultAssetName(execute.contentType), execute.contentType, |execute.body|)]
      ensures AllSucceed() && execute.Produced? ==>
                && outcome == OutcomeFinished && progress == 100.0
                && events == [Started, Progress, Progress, Progress, Completed]
                && logs == old(logs) + ["job finished"]
    {
      hide Recorded, DefaultAssetName, FinalAfterPut;
      if execute.TimedOut? {
        AppendLog("job timed out");
        Fail();
        return OutcomeFailed("job timed out");
      }
      SetProgress(80.0);
      Publish(Progress);
      match execute {
        case Produced(contentType, body) =>
          outcome := Persist(contentType, body);
        case ExecFailed(detail) =>
          AppendLog("executor failed: " + detail);
          Fail();
          return OutcomeFailed(detail);
        case TimedOut =>
          assert false;
      }
    }
  }

  /**
   Start-up recovery of the table after a crash at any point of a run, for the row `i` of
   the job: afterwards no row is queued or running, rows that were not are untouched, the
   orphans are counted and a second start finds none, and the job counts as finished exactly
   if the run had got so far, with its result on record.
   */
  lemma CrashThenRecover(w: World, s: Snapshot, t: Table, i: nat, now: nat)
    requires w.Recorded() && s in w.history
    requires i < |t| && t[i].job.status == s.status && t[i].job.assets == s.assets
    ensures var (t', a) := TableStep(t, RecoverOrphans, now);
            && |t'| == |t| && a == Count(|OrphanRows(t)|) && TableStep(t', RecoverOrphans, now) == (t', Count(0))
            && (forall k :: 0 <= k < |t| ==> t'[k].job.status != Queued && t'[k].job.status != Running)
            && (forall k :: 0 <= k < |t| && t[k].job.status != Queued && t[k].job.status != Running ==> t'[k] == t[k])
            && (t'[i].job.status == Finished <==> s.status == Finished)
            && (t'[i].job.status == Finished ==> Backed(t'[i].job.assets, s.files))
  {
    TableRecoveryIsExact(t, now, now);
    hide Backed;
  }
}
