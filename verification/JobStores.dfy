/**
 The two job stores (apps/orbit-openeo/src/job_store.rs): a vector of records with a
 separate map of logs, and a table with one row per job. Each operation is given as a
 step on the store's own representation; the steps are proved to agree on every trace.
 */
module JobStores {
  import opened Wrappers
  import opened Json
  import opened Timestamps

  datatype JobStatus = Created | Queued | Running | Canceled | Finished | Error

  datatype Asset = Asset(name: string, mediaType: string, size: nat)

  datatype LogEntry = LogEntry(id: string, level: string, message: string, time: string)

  datatype Job = Job(id: string, userId: string, title: Option<string>, description: Option<string>, process: Json<real>,
                     status: JobStatus, progress: Option<real>, created: nat, updated: nat, assets: seq<Asset>)

  datatype Op =
    | Create(id: string, userId: string, title: Option<string>, description: Option<string>, process: Json<real>)
    | GetJob(id: string)
    | ListForUser(userId: string)
    | SetStatus(id: string, status: JobStatus)
    | SetProgress(id: string, progress: real)
    | SetMetadata(id: string, title: Option<string>, description: Option<string>)
    | Delete(id: string)
    | AddAsset(id: string, asset: Asset)
    | AppendLog(id: string, level: string, message: string)
    | GetLogs(id: string)
    | RecoverOrphans

  datatype Answer =
    | Record(job: Job)
    | Records(jobs: seq<Job>)
    | Logs(entries: seq<LogEntry>)
    | Count(n: nat)
    | Done
    | NotFound(id: string)

  function NewJob(op: Op, now: nat): Job
    requires op.Create?
  {
    Job(op.id, op.userId, op.title, op.description, op.process, Created, Some(0.0), now, now, [])
  }

  function Clamp(p: real): real {
    if p < 0.0 then 0.0 else if p > 100.0 then 100.0 else p
  }

  function NewLog(position: nat, level: string, message: string, now: nat): LogEntry {
    LogEntry(Decimal(position), level, message, Iso8601(now))
  }

  predicate IsOrphan(s: JobStatus) {
    s == Queued || s == Running
  }

  // --------------------------------------------- the vector of records and logs

  datatype Memory = Memory(inner: seq<Job>, logs: map<string, seq<LogEntry>>)

  /** Position of the first record with the id. */
  function Find(inner: seq<Job>, id: string): (r: Option<nat>)
    ensures r.Some? ==> r.value < |inner| && inner[r.value].id == id
    ensures r.None? <==> forall i :: 0 <= i < |inner| ==> inner[i].id != id
  {
    if inner == [] then None
    else if inner[0].id == id then Some(0)
    else
      var r := Find(inner[1..], id);
      assert forall i :: 0 < i < |inner| ==> inner[i] == inner[1..][i - 1];
      if r.None? then None else Some(r.value + 1)
  }

  function OwnedBy(user: string): Job -> bool {
    (j: Job) => j.userId == user
  }

  function IsNot(id: string): Job -> bool {
    (j: Job) => j.id != id
  }

  function Where(inner: seq<Job>, keep: Job -> bool): seq<Job> {
    if inner == [] then []
    else (if keep(inner[0]) then [inner[0]] else []) + Where(inner[1..], keep)
  }

  /** Changes the record with the id, or answers that there is none. */
  function MemoryUpdate(m: Memory, id: string, change: Job -> Job): (Memory, Answer) {
    var i := Find(m.inner, id);
    if i.None? then (m, NotFound(id))
    else (m.(inner := m.inner[i.value := change(m.inner[i.value])]), Done)
  }

  function LogsOf(m: Memory, id: string): seq<LogEntry> {
    if id in m.logs then m.logs[id] else []
  }

  function RecoveredJob(j: Job, now: nat): Job {
    if IsOrphan(j.status) then j.(status := Error, updated := now) else j
  }

  function RecoverAll(inner: seq<Job>, now: nat): (seq<Job>, nat) {
    if inner == [] then ([], 0)
    else
      var (rest, n) := RecoverAll(inner[1..], now);
      ([RecoveredJob(inner[0], now)] + rest, if IsOrphan(inner[0].status) then n + 1 else n)
  }

  function MemoryAppendLog(m: Memory, id: string, level: string, message: string, now: nat): (Memory, Answer) {
    if Find(m.inner, id).None? then (m, NotFound(id))
    else (m.(logs := m.logs[id := LogsOf(m, id) + [NewLog(|LogsOf(m, id)|, level, message, now)]]), Done)
  }

  function MemoryStep(m: Memory, op: Op, now: nat): (Memory, Answer) {
    match op
    case Create(_, _, _, _, _) => (m.(inner := m.inner + [NewJob(op, now)]), Record(NewJob(op, now)))
    case GetJob(id) =>
      var i := Find(m.inner, id);
      (m, if i.None? then NotFound(id) else Record(m.inner[i.value]))
    case ListForUser(user) => (m, Records(Where(m.inner, OwnedBy(user))))
    case SetStatus(id, s) => MemoryUpdate(m, id, (j: Job) => j.(status := s, updated := now))
    case SetProgress(id, p) => MemoryUpdate(m, id, (j: Job) => j.(progress := Some(Clamp(p)), updated := now))
    case SetMetadata(id, t, d) =>
      MemoryUpdate(m, id, (j: Job) =>
        j.(title := if t.Some? then t else j.title, description := if d.Some? then d else j.description, updated := now))
    case Delete(id) => (Memory(Where(m.inner, IsNot(id)), m.logs - {id}), Done)
    case AddAsset(id, a) => MemoryUpdate(m, id, (j: Job) => j.(assets := j.assets + [a], updated := now))
    case AppendLog(id, level, message) => MemoryAppendLog(m, id, level, message, now)
    case GetLogs(id) => (m, if Find(m.inner, id).None? then NotFound(id) else Logs(LogsOf(m, id)))
    case RecoverOrphans =>
      var (inner, n) := RecoverAll(m.inner, now);
      (m.(inner := inner), Count(n))
  }

  // --------------------------------------------------------- the table of rows

  datatype Row = Row(job: Job, logs: seq<LogEntry>)

  type Table = seq<Row>

  /** `UPDATE ... WHERE p`: every row that satisfies `p` is changed. */
  function UpdateWhere(rows: Table, p: Row -> bool, change: Row -> Row): Table {
    seq(|rows|, i requires 0 <= i < |rows| => if p(rows[i]) then change(rows[i]) else rows[i])
  }

  /** The number of rows that satisfy `p`, as `rows_affected` reports it. */
  function Affected(rows: Table, p: Row -> bool): nat {
    if rows == [] then 0 else (if p(rows[0]) then 1 else 0) + Affected(rows[1..], p)
  }

  /** `SELECT ... WHERE p`, in table order. */
  function Select(rows: Table, p: Row -> bool): Table {
    if rows == [] then []
    else (if p(rows[0]) then [rows[0]] else []) + Select(rows[1..], p)
  }

  function WithId(id: string): Row -> bool {
    (r: Row) => r.job.id == id
  }

  function WithLogs(logs: seq<LogEntry>): Row -> Row {
    (r: Row) => r.(logs := logs)
  }

  function RowOwnedBy(user: string): Row -> bool {
    (r: Row) => r.job.userId == user
  }

  function RowIsNot(id: string): Row -> bool {
    (r: Row) => r.job.id != id
  }

  function RowIsOrphan(): Row -> bool {
    (r: Row) => IsOrphan(r.job.status)
  }

  function RecoverRow(now: nat): Row -> Row {
    (r: Row) => r.(job := r.job.(status := Error, updated := now))
  }

  function UpdateById(t: Table, id: string, change: Row -> Row): (Table, Answer) {
    if Affected(t, WithId(id)) == 0 then (t, NotFound(id)) else (UpdateWhere(t, WithId(id), change), Done)
  }

  /** The SQL function: the first argument unless it is null. */
  function Coalesce<T>(a: Option<T>, b: Option<T>): Option<T> {
    if a.Some? then a else b
  }

  function InsertByCreated(j: Job, sorted: seq<Job>): seq<Job> {
    if sorted == [] || j.created <= sorted[0].created then [j] + sorted
    else [sorted[0]] + InsertByCreated(j, sorted[1..])
  }

  /** `ORDER BY created ASC`, keeping table order among equals. */
  function OrderByCreated(jobs: seq<Job>): seq<Job> {
    if jobs == [] then [] else InsertByCreated(jobs[0], OrderByCreated(jobs[1..]))
  }

  function JobsOf(rows: Table): seq<Job> {
    seq(|rows|, i requires 0 <= i < |rows| => rows[i].job)
  }

  function WithAssets(assets: seq<Asset>, now: nat): Row -> Row {
    (r: Row) => r.(job := r.job.(assets := assets, updated := now))
  }

  /** Reads the assets, appends one and writes them back, in one transaction. */
  function TableAddAsset(t: Table, id: string, asset: Asset, now: nat): (Table, Answer) {
    var found := Select(t, WithId(id));
    if found == [] then (t, NotFound(id))
    else (UpdateWhere(t, WithId(id), WithAssets(found[0].job.assets + [asset], now)), Done)
  }

  /** Reads the log, appends an entry and writes it back, in one transaction. */
  function TableAppendLog(t: Table, id: string, level: string, message: string, now: nat): (Table, Answer) {
    var found := Select(t, WithId(id));
    if found == [] then (t, NotFound(id))
    else (UpdateWhere(t, WithId(id), WithLogs(found[0].logs + [NewLog(|found[0].logs|, level, message, now)])), Done)
  }

  function TableStep(t: Table, op: Op, now: nat): (Table, Answer) {
    match op
    case Create(_, _, _, _, _) => (t + [Row(NewJob(op, now), [])], Record(NewJob(op, now)))
    case GetJob(id) =>
      var found := Select(t, WithId(id));
      (t, if found == [] then NotFound(id) else Record(found[0].job))
    case ListForUser(user) => (t, Records(OrderByCreated(JobsOf(Select(t, RowOwnedBy(user))))))
    case SetStatus(id, s) => UpdateById(t, id, (r: Row) => r.(job := r.job.(status := s, updated := now)))
    case SetProgress(id, p) => UpdateById(t, id, (r: Row) => r.(job := r.job.(progress := Some(Clamp(p)), updated := now)))
    case SetMetadata(id, title, description) =>
      UpdateById(t, id, (r: Row) =>
        r.(job := r.job.(title := Coalesce(title, r.job.title), description := Coalesce(description, r.job.description), updated := now)))
    case Delete(id) => (Select(t, RowIsNot(id)), Done)
    case AddAsset(id, a) => TableAddAsset(t, id, a, now)
    case AppendLog(id, level, message) => TableAppendLog(t, id, level, message, now)
    case GetLogs(id) =>
      var found := Select(t, WithId(id));
      (t, if found == [] then NotFound(id) else Logs(found[0].logs))
    case RecoverOrphans =>
      var orphan := RowIsOrphan();
      (UpdateWhere(t, orphan, RecoverRow(now)), Count(Affected(t, orphan)))
  }

  // ------------------------------------------------------------ correspondence

  predicate DistinctIds(inner: seq<Job>) {
    forall i, j :: 0 <= i < j < |inner| ==> inner[i].id != inner[j].id
  }

  /** The same jobs in the same order, each with the same log. */
  ghost predicate Corresponds(m: Memory, t: Table) {
    DistinctIds(m.inner) && Aligned(m, t) && LogsAreOwned(m)
  }

  predicate Aligned(m: Memory, t: Table) {
    |m.inner| == |t| && forall i :: 0 <= i < |t| ==> t[i] == Row(m.inner[i], LogsOf(m, m.inner[i].id))
  }

  predicate LogsAreOwned(m: Memory) {
    forall id :: id in m.logs ==> Find(m.inner, id).Some?
  }

  /** Equal answers, except that lists may be ordered differently; the table's are by creation time. */
  predicate AnswersAgree(a: Answer, b: Answer) {
    if a.Records? && b.Records? then multiset(a.jobs) == multiset(b.jobs) && SortedByCreated(b.jobs) else a == b
  }

  predicate SortedByCreated(jobs: seq<Job>) {
    forall i, j :: 0 <= i < j < |jobs| ==> jobs[i].created <= jobs[j].created
  }

  // ------------------------------------------------------ facts about the table

  lemma {:induction false} SelectById(m: Memory, t: Table, id: string)
    requires Corresponds(m, t)
    ensures var i := Find(m.inner, id);
            && (i.None? ==> Select(t, WithId(id)) == [] && Affected(t, WithId(id)) == 0)
            && (i.Some? ==> Select(t, WithId(id)) == [t[i.value]] && Affected(t, WithId(id)) == 1)
  {
    SelectByIdFrom(m.inner, t, id);
  }

  lemma {:induction false} SelectByIdFrom(inner: seq<Job>, t: Table, id: string)
    requires |inner| == |t| && DistinctIds(inner) && forall i :: 0 <= i < |t| ==> t[i].job == inner[i]
    ensures var i := Find(inner, id);
            && (i.None? ==> Select(t, WithId(id)) == [] && Affected(t, WithId(id)) == 0)
            && (i.Some? ==> Select(t, WithId(id)) == [t[i.value]] && Affected(t, WithId(id)) == 1)
  {
    if t != [] {
      SelectByIdFrom(inner[1..], t[1..], id);
      if inner[0].id == id {
        assert Find(inner[1..], id).None?;
        assert [t[0]] + [] == [t[0]];
      } else {
        assert [] + Select(t[1..], WithId(id)) == Select(t[1..], WithId(id));
      }
    }
  }

  lemma FindAt(inner: seq<Job>, i: nat)
    requires DistinctIds(inner) && i < |inner|
    ensures Find(inner, inner[i].id) == Some(i)
  {
  }

  /** Changing one record by position is updating the rows with its id. */
  lemma UpdatesCorrespond(m: Memory, t: Table, id: string, change: Job -> Job, changeRow: Row -> Row)
    requires Corresponds(m, t)
    requires forall j :: change(j).id == j.id
    requires forall r :: changeRow(r) == Row(change(r.job), r.logs)
    ensures var (m', a) := MemoryUpdate(m, id, change);
            var (t', b) := UpdateById(t, id, changeRow);
            Corresponds(m', t') && a == b
  {
    SelectById(m, t, id);
    var i := Find(m.inner, id);
    if i.Some? {
      hide Find, Affected, Select, WithId, Corresponds, UpdateWhere;
      RowUpdateCorresponds(m, t, i.value, change(m.inner[i.value]), changeRow);
    }
  }

  lemma RowUpdateCorresponds(m: Memory, t: Table, i: nat, job: Job, changeRow: Row -> Row)
    requires Corresponds(m, t) && i < |t| && job.id == m.inner[i].id
    requires changeRow(t[i]) == Row(job, t[i].logs)
    ensures Corresponds(m.(inner := m.inner[i := job]), UpdateWhere(t, WithId(m.inner[i].id), changeRow))
  {
    RowsWithId(m, t, i);
    LogsStayOwned(m, m.inner[i := job]);
    hide LogsAreOwned, WithId;
  }

  /** Only the row at its position has a record's id. */
  lemma RowsWithId(m: Memory, t: Table, i: nat)
    requires Corresponds(m, t) && i < |t|
    ensures forall k :: 0 <= k < |t| ==> (WithId(m.inner[i].id)(t[k]) <==> k == i)
  {
    hide Find;
  }

  lemma {:induction false} SameIdsSameFind(a: seq<Job>, b: seq<Job>)
    requires |a| == |b| && forall i :: 0 <= i < |a| ==> a[i].id == b[i].id
    ensures forall id :: Find(a, id) == Find(b, id)
  {
    if a != [] {
      SameIdsSameFind(a[1..], b[1..]);
    }
  }

  lemma {:induction false} FilterAligned(inner: seq<Job>, t: Table, keep: Job -> bool, p: Row -> bool)
    requires |inner| == |t| && forall i :: 0 <= i < |t| ==> t[i].job == inner[i] && (p(t[i]) <==> keep(inner[i]))
    ensures JobsOf(Select(t, p)) == Where(inner, keep)
    ensures forall r :: r in Select(t, p) ==> r in t && p(r)
    decreases |t|
  {
    if t != [] {
      FilterAligned(inner[1..], t[1..], keep, p);
      assert t == [t[0]] + t[1..];
    }
  }

  lemma {:induction false} WhereKeeps(inner: seq<Job>, keep: Job -> bool)
    requires DistinctIds(inner)
    ensures DistinctIds(Where(inner, keep))
    ensures forall j :: j in Where(inner, keep) <==> j in inner && keep(j)
  {
    if inner != [] {
      WhereKeeps(inner[1..], keep);
      assert inner == [inner[0]] + inner[1..];
      var rest := Where(inner[1..], keep);
      forall i | 0 <= i < |rest|
        ensures rest[i].id != inner[0].id
      {
        assert rest[i] in rest;
      }
    }
  }

  lemma DeleteCorresponds(m: Memory, t: Table, id: string)
    requires Corresponds(m, t)
    ensures Corresponds(MemoryStep(m, Delete(id), 0).0, TableStep(t, Delete(id), 0).0)
  {
    var keep, p := IsNot(id), RowIsNot(id);
    FilterAligned(m.inner, t, keep, p);
    WhereKeeps(m.inner, keep);
    KeptRows(m, t, id, keep, p);
    LogsAreOfKept(m, id, keep);
    hide Find, Select, Where, Aligned, LogsAreOwned, DistinctIds;
  }

  lemma KeptRows(m: Memory, t: Table, id: string, keep: Job -> bool, p: Row -> bool)
    requires Corresponds(m, t) && JobsOf(Select(t, p)) == Where(m.inner, keep)
    requires forall r :: r in Select(t, p) ==> r in t && p(r)
    requires forall r :: p(r) ==> r.job.id != id
    ensures Aligned(Memory(Where(m.inner, keep), m.logs - {id}), Select(t, p))
  {
    hide Find;
    var kept := Select(t, p);
    assert |JobsOf(kept)| == |kept|;
    forall i | 0 <= i < |kept|
      ensures var job := Where(m.inner, keep)[i];
              kept[i] == Row(job, LogsOf(Memory(Where(m.inner, keep), m.logs - {id}), job.id))
    {
      assert JobsOf(kept)[i] == kept[i].job;
      assert kept[i] in kept;
      var k :| 0 <= k < |t| && t[k] == kept[i];
    }
  }

  lemma LogsAreOfKept(m: Memory, id: string, keep: Job -> bool)
    requires LogsAreOwned(m)
    requires forall j :: keep(j) <==> j.id != id
    requires forall j :: j in Where(m.inner, keep) <==> j in m.inner && keep(j)
    ensures LogsAreOwned(Memory(Where(m.inner, keep), m.logs - {id}))
  {
    forall other | other in m.logs - {id}
      ensures Find(Where(m.inner, keep), other).Some?
    {
      var k := Find(m.inner, other).value;
      assert m.inner[k] in m.inner && m.inner[k] in Where(m.inner, keep);
    }
  }

  lemma CreateCorresponds(m: Memory, t: Table, op: Op, now: nat)
    requires Corresponds(m, t) && op.Create? && Find(m.inner, op.id).None?
    ensures Corresponds(MemoryStep(m, op, now).0, TableStep(t, op, now).0)
  {
    var job := NewJob(op, now);
    assert op.id !in m.logs;
    NewRowAligned(m, t, job);
    NewJobOwnsNothing(m, job);
    assert DistinctIds(m.inner + [job]);
    hide DistinctIds, Aligned, LogsAreOwned, Find;
  }

  lemma NewRowAligned(m: Memory, t: Table, job: Job)
    requires Aligned(m, t) && job.id !in m.logs
    ensures Aligned(m.(inner := m.inner + [job]), t + [Row(job, [])])
  {
  }

  lemma NewJobOwnsNothing(m: Memory, job: Job)
    requires LogsAreOwned(m)
    ensures LogsAreOwned(m.(inner := m.inner + [job]))
  {
    forall id | id in m.logs
      ensures Find(m.inner + [job], id).Some?
    {
      var k := Find(m.inner, id).value;
      assert (m.inner + [job])[k].id == id;
    }
  }

  lemma AddAssetCorresponds(m: Memory, t: Table, id: string, asset: Asset, now: nat)
    requires Corresponds(m, t)
    ensures var (m', a) := MemoryUpdate(m, id, (j: Job) => j.(assets := j.assets + [asset], updated := now));
            var (t', b) := TableAddAsset(t, id, asset, now);
            Corresponds(m', t') && a == b
  {
    SelectById(m, t, id);
    hide Select, Affected, Corresponds, Find, UpdateWhere, WithId;
    var i := Find(m.inner, id);
    if i.Some? {
      FoundRow(m, t, id);
      var job := m.inner[i.value];
      RowUpdateCorresponds(m, t, i.value, job.(assets := job.assets + [asset], updated := now), WithAssets(job.assets + [asset], now));
    }
  }

  lemma AppendLogCorresponds(m: Memory, t: Table, id: string, level: string, message: string, now: nat)
    requires Corresponds(m, t)
    ensures var (m', a) := MemoryAppendLog(m, id, level, message, now);
            var (t', b) := TableAppendLog(t, id, level, message, now);
            Corresponds(m', t') && a == b
  {
    SelectById(m, t, id);
    hide NewLog, Select, Affected, Corresponds, Find, UpdateWhere, WithId, WithLogs;
    var i := Find(m.inner, id);
    if i.Some? {
      FoundRow(m, t, id);
      LogAppended(m, t, i.value, LogsOf(m, id) + [NewLog(|LogsOf(m, id)|, level, message, now)]);
    }
  }

  lemma FoundRow(m: Memory, t: Table, id: string)
    requires Corresponds(m, t) && Find(m.inner, id).Some?
    ensures var i := Find(m.inner, id).value;
            i < |t| && m.inner[i].id == id && t[i] == Row(m.inner[i], LogsOf(m, id))
  {
  }

  lemma LogAppended(m: Memory, t: Table, i: nat, logs: seq<LogEntry>)
    requires Corresponds(m, t) && i < |t|
    ensures Corresponds(m.(logs := m.logs[m.inner[i].id := logs]),
                        UpdateWhere(t, WithId(m.inner[i].id), WithLogs(logs)))
  {
    RowsWithId(m, t, i);
    FindAt(m.inner, i);
    hide Find, WithId;
  }

  lemma {:induction false} RecoverAllFacts(inner: seq<Job>, now: nat)
    ensures var (after, n) := RecoverAll(inner, now);
            && |after| == |inner|
            && (forall i :: 0 <= i < |inner| ==> after[i] == RecoveredJob(inner[i], now))
  {
    if inner != [] {
      RecoverAllFacts(inner[1..], now);
    }
  }

  lemma {:induction false} RecoverCountsOrphans(inner: seq<Job>, t: Table, now: nat, p: Row -> bool)
    requires |inner| == |t| && forall i :: 0 <= i < |t| ==> t[i].job == inner[i] && (p(t[i]) <==> IsOrphan(inner[i].status))
    ensures RecoverAll(inner, now).1 == Affected(t, p)
  {
    if t != [] {
      RecoverCountsOrphans(inner[1..], t[1..], now, p);
    }
  }

  lemma RecoverCorresponds(m: Memory, t: Table, now: nat)
    requires Corresponds(m, t)
    ensures var (m', a) := MemoryStep(m, RecoverOrphans, now);
            var (t', b) := TableStep(t, RecoverOrphans, now);
            Corresponds(m', t') && a == b
  {
    var p := RowIsOrphan();
    var after := RecoverAll(m.inner, now).0;
    RecoverAllFacts(m.inner, now);
    RecoverCountsOrphans(m.inner, t, now, p);
    RecoveredRowsAligned(m, t, now, after);
    LogsStayOwned(m, after);
    hide Find, RecoverAll, Affected, LogsAreOwned, Aligned, DistinctIds, UpdateWhere;
  }

  lemma RecoveredRowsAligned(m: Memory, t: Table, now: nat, after: seq<Job>)
    requires Aligned(m, t) && DistinctIds(m.inner) && |after| == |m.inner|
    requires forall i :: 0 <= i < |after| ==> after[i] == RecoveredJob(m.inner[i], now)
    ensures DistinctIds(after)
    ensures Aligned(m.(inner := after),
                    UpdateWhere(t, RowIsOrphan(), RecoverRow(now)))
  {
    assert forall i :: 0 <= i < |after| ==> after[i].id == m.inner[i].id;
  }

  lemma LogsStayOwned(m: Memory, after: seq<Job>)
    requires LogsAreOwned(m) && |after| == |m.inner| && forall i :: 0 <= i < |after| ==> after[i].id == m.inner[i].id
    ensures LogsAreOwned(m.(inner := after))
  {
    SameIdsSameFind(m.inner, after);
    hide Find;
  }

  // ------------------------------------------------------------------- listing

  lemma {:induction false} InsertByCreatedSorts(j: Job, sorted: seq<Job>)
    requires SortedByCreated(sorted)
    ensures SortedByCreated(InsertByCreated(j, sorted))
    ensures forall x :: x in InsertByCreated(j, sorted) <==> x == j || x in sorted
  {
    if sorted != [] && j.created > sorted[0].created {
      InsertByCreatedSorts(j, sorted[1..]);
      assert sorted == [sorted[0]] + sorted[1..];
      var rest := InsertByCreated(j, sorted[1..]);
      forall i | 0 <= i < |rest|
        ensures sorted[0].created <= rest[i].created
      {
        assert rest[i] in rest;
        if rest[i] != j {
          var k :| 0 <= k < |sorted[1..]| && sorted[1..][k] == rest[i];
          assert sorted[k + 1] == rest[i];
        }
      }
    }
  }

  lemma {:induction false} InsertByCreatedKeeps(j: Job, sorted: seq<Job>)
    ensures multiset(InsertByCreated(j, sorted)) == multiset(sorted) + multiset{j}
  {
    if sorted != [] && j.created > sorted[0].created {
      InsertByCreatedKeeps(j, sorted[1..]);
      assert sorted == [sorted[0]] + sorted[1..];
    }
  }

  lemma {:induction false} OrderByCreatedSorts(jobs: seq<Job>)
    ensures SortedByCreated(OrderByCreated(jobs)) && multiset(OrderByCreated(jobs)) == multiset(jobs)
  {
    if jobs != [] {
      OrderByCreatedSorts(jobs[1..]);
      InsertByCreatedSorts(jobs[0], OrderByCreated(jobs[1..]));
      InsertByCreatedKeeps(jobs[0], OrderByCreated(jobs[1..]));
      assert jobs == [jobs[0]] + jobs[1..];
    }
  }

  /** Ordering what is already in order changes nothing. */
  lemma {:induction false} OrderByCreatedIdle(jobs: seq<Job>)
    requires SortedByCreated(jobs)
    ensures OrderByCreated(jobs) == jobs
  {
    if jobs != [] {
      OrderByCreatedIdle(jobs[1..]);
      assert jobs == [jobs[0]] + jobs[1..];
      assert |jobs| > 1 ==> jobs[1..][0] == jobs[1];
    }
  }

  lemma {:induction false} WhereSorted(inner: seq<Job>, keep: Job -> bool)
    requires SortedByCreated(inner)
    ensures SortedByCreated(Where(inner, keep))
    ensures forall j :: j in Where(inner, keep) ==> j in inner
  {
    if inner != [] {
      WhereSorted(inner[1..], keep);
      var rest := Where(inner[1..], keep);
      assert inner == [inner[0]] + inner[1..];
      forall i | 0 <= i < |rest|
        ensures inner[0].created <= rest[i].created
      {
        assert rest[i] in rest;
        var k :| 0 <= k < |inner[1..]| && inner[1..][k] == rest[i];
        assert inner[k + 1] == rest[i];
      }
    }
  }

  /** The owner's jobs stand in the vector in order of creation. */
  predicate ListInOrder(m: Memory, user: string) {
    SortedByCreated(Where(m.inner, OwnedBy(user)))
  }

  lemma ListsAgree(m: Memory, t: Table, user: string)
    requires Corresponds(m, t)
    ensures AnswersAgree(MemoryStep(m, ListForUser(user), 0).1, TableStep(t, ListForUser(user), 0).1)
    ensures MemoryStep(m, ListForUser(user), 0).1 == TableStep(t, ListForUser(user), 0).1 <==> ListInOrder(m, user)
  {
    var keep, p := OwnedBy(user), RowOwnedBy(user);
    FilterAligned(m.inner, t, keep, p);
    OrderByCreatedSorts(Where(m.inner, keep));
    if ListInOrder(m, user) {
      OrderByCreatedIdle(Where(m.inner, keep));
    }
  }

  lemma LookupsAgree(m: Memory, t: Table, id: string)
    requires Corresponds(m, t)
    ensures MemoryStep(m, GetJob(id), 0).1 == TableStep(t, GetJob(id), 0).1
    ensures MemoryStep(m, GetLogs(id), 0).1 == TableStep(t, GetLogs(id), 0).1
  {
    SelectById(m, t, id);
    hide Find, Select, Affected, DistinctIds, LogsAreOwned;
  }

  // ----------------------------------------------------- one step, every trace

  /** New ids are new: they are v4 UUIDs. */
  predicate IdIsFresh(m: Memory, op: Op) {
    op.Create? ==> Find(m.inner, op.id).None?
  }

  lemma StepsAgree(m: Memory, t: Table, op: Op, now: nat)
    requires Corresponds(m, t) && IdIsFresh(m, op)
    ensures var (m', a) := MemoryStep(m, op, now);
            var (t', b) := TableStep(t, op, now);
            && Corresponds(m', t') && AnswersAgree(a, b)
            && (a == b <==> (op.ListForUser? ==> ListInOrder(m, op.userId)))
  {
    hide Corresponds, ListInOrder, OrderByCreated, UpdateWhere, Affected, RecoverAll, Select, Find;
    match op
    case Create(_, _, _, _, _) => CreateCorresponds(m, t, op, now);
    case GetJob(id) => LookupsAgree(m, t, id);
    case ListForUser(user) => ListsAgree(m, t, user);
    case SetStatus(id, s) =>
      UpdatesCorrespond(m, t, id, (j: Job) => j.(status := s, updated := now), (r: Row) => r.(job := r.job.(status := s, updated := now)));
    case SetProgress(id, p) =>
      UpdatesCorrespond(m, t, id, (j: Job) => j.(progress := Some(Clamp(p)), updated := now),
                        (r: Row) => r.(job := r.job.(progress := Some(Clamp(p)), updated := now)));
    case SetMetadata(id, x, d) =>
      UpdatesCorrespond(m, t, id,
        (j: Job) => j.(title := if x.Some? then x else j.title, description := if d.Some? then d else j.description, updated := now),
        (r: Row) => r.(job := r.job.(title := Coalesce(x, r.job.title), description := Coalesce(d, r.job.description), updated := now)));
    case Delete(id) => DeleteCorresponds(m, t, id);
    case AddAsset(id, asset) => AddAssetCorresponds(m, t, id, asset, now);
    case AppendLog(id, level, message) => AppendLogCorresponds(m, t, id, level, message, now);
    case GetLogs(id) => LookupsAgree(m, t, id);
    case RecoverOrphans => RecoverCorresponds(m, t, now);
  }

  function RunMemory(m: Memory, trace: seq<(Op, nat)>): (Memory, seq<Answer>)
    decreases |trace|
  {
    if trace == [] then (m, [])
    else
      var (m', a) := MemoryStep(m, trace[0].0, trace[0].1);
      var (end, rest) := RunMemory(m', trace[1..]);
      (end, [a] + rest)
  }

  function RunTable(t: Table, trace: seq<(Op, nat)>): (Table, seq<Answer>)
    decreases |trace|
  {
    if trace == [] then (t, [])
    else
      var (t', a) := TableStep(t, trace[0].0, trace[0].1);
      var (end, rest) := RunTable(t', trace[1..]);
      (end, [a] + rest)
  }

  predicate FreshIds(m: Memory, trace: seq<(Op, nat)>)
    decreases |trace|
  {
    trace == [] || (IdIsFresh(m, trace[0].0) && FreshIds(MemoryStep(m, trace[0].0, trace[0].1).0, trace[1..]))
  }

  /** The clock never steps back, and starts no earlier than the newest job. */
  predicate ClockAdvances(trace: seq<(Op, nat)>, last: nat) {
    trace == [] || (last <= trace[0].1 && ClockAdvances(trace[1..], trace[0].1))
  }

  /** On every trace both stores answer alike, up to the order within lists. */
  lemma {:induction false} StoresAgree(m: Memory, t: Table, trace: seq<(Op, nat)>)
    requires Corresponds(m, t) && FreshIds(m, trace)
    ensures var (m', left) := RunMemory(m, trace);
            var (t', right) := RunTable(t, trace);
            && Corresponds(m', t') && |left| == |right| == |trace|
            && forall i :: 0 <= i < |left| ==> AnswersAgree(left[i], right[i])
    decreases |trace|
  {
    hide Corresponds, AnswersAgree, MemoryStep, TableStep, IdIsFresh, SortedByCreated;
    if trace != [] {
      StepsAgree(m, t, trace[0].0, trace[0].1);
      StoresAgree(MemoryStep(m, trace[0].0, trace[0].1).0, TableStep(t, trace[0].0, trace[0].1).0, trace[1..]);
    }
  }

  predicate CreatedUpTo(inner: seq<Job>, last: nat) {
    SortedByCreated(inner) && forall i :: 0 <= i < |inner| ==> inner[i].created <= last
  }

  /** Jobs stay in order of creation as long as the clock does not step back. */
  lemma StepKeepsCreationOrder(m: Memory, op: Op, now: nat, last: nat)
    requires CreatedUpTo(m.inner, last) && last <= now && DistinctIds(m.inner)
    ensures CreatedUpTo(MemoryStep(m, op, now).0.inner, now)
  {
    hide Find, Where, RecoverAll;
    match op
    case Delete(id) =>
      var keep := IsNot(id);
      WhereSorted(m.inner, keep);
      var kept := Where(m.inner, keep);
      forall i | 0 <= i < |kept|
        ensures kept[i].created <= now
      {
        assert kept[i] in kept;
      }
    case RecoverOrphans => RecoverAllFacts(m.inner, now);
    case _ =>
  }

  /** Every list asked for on the trace is in order of creation when it is asked for. */
  predicate ListsInOrder(m: Memory, trace: seq<(Op, nat)>)
    decreases |trace|
  {
    trace == []
    || ((trace[0].0.ListForUser? ==> ListInOrder(m, trace[0].0.userId))
        && ListsInOrder(MemoryStep(m, trace[0].0, trace[0].1).0, trace[1..]))
  }

  /** Whatever the clock does, all answers are equal, lists included, exactly when every list asked for is in order. */
  lemma {:induction false} StoresAnswerEquallyIff(m: Memory, t: Table, trace: seq<(Op, nat)>)
    requires Corresponds(m, t) && FreshIds(m, trace)
    ensures RunMemory(m, trace).1 == RunTable(t, trace).1 <==> ListsInOrder(m, trace)
    decreases |trace|
  {
    hide Corresponds, AnswersAgree, MemoryStep, TableStep, IdIsFresh, ListInOrder;
    if trace != [] {
      var (m', a) := MemoryStep(m, trace[0].0, trace[0].1);
      var (t', b) := TableStep(t, trace[0].0, trace[0].1);
      StepsAgree(m, t, trace[0].0, trace[0].1);
      StoresAnswerEquallyIff(m', t', trace[1..]);
      SameFirstAndRest(a, RunMemory(m', trace[1..]).1, b, RunTable(t', trace[1..]).1);
    }
  }

  lemma SameFirstAndRest<T>(x: T, xs: seq<T>, y: T, ys: seq<T>)
    ensures [x] + xs == [y] + ys <==> x == y && xs == ys
  {
    if [x] + xs == [y] + ys {
      assert x == ([x] + xs)[0] && y == ([y] + ys)[0];
      assert xs == ([x] + xs)[1..] && ys == ([y] + ys)[1..];
    }
  }

  /** A clock that never steps back keeps every list in order. */
  lemma {:induction false} AdvancingClockKeepsLists(m: Memory, t: Table, trace: seq<(Op, nat)>, last: nat)
    requires Corresponds(m, t) && FreshIds(m, trace) && ClockAdvances(trace, last) && CreatedUpTo(m.inner, last)
    ensures ListsInOrder(m, trace)
    decreases |trace|
  {
    if trace != [] {
      assert DistinctIds(m.inner);
      if trace[0].0.ListForUser? {
        WhereSorted(m.inner, OwnedBy(trace[0].0.userId));
      }
      hide Corresponds, AnswersAgree, MemoryStep, TableStep, IdIsFresh, CreatedUpTo;
      StepsAgree(m, t, trace[0].0, trace[0].1);
      StepKeepsCreationOrder(m, trace[0].0, trace[0].1, last);
      AdvancingClockKeepsLists(MemoryStep(m, trace[0].0, trace[0].1).0, TableStep(t, trace[0].0, trace[0].1).0, trace[1..], trace[0].1);
    }
  }

  /** Both stores start empty, and empty they correspond. */
  lemma EmptyStoresCorrespond()
    ensures Corresponds(Memory([], map[]), [])
  {
  }

  // ------------------------------------------------------------ orphan recovery

  function OrphanCount(inner: seq<Job>): nat {
    if inner == [] then 0 else (if IsOrphan(inner[0].status) then 1 else 0) + OrphanCount(inner[1..])
  }

  /**
   Recovery counts the orphans exactly, leaves none, touches nothing else, and finds
   nothing to do a second time.
   */
  lemma RecoveryIsExact(m: Memory, now: nat, later: nat)
    ensures var (m', a) := MemoryStep(m, RecoverOrphans, now);
            && a == Count(OrphanCount(m.inner))
            && |m'.inner| == |m.inner| && m'.logs == m.logs
            && (forall i :: 0 <= i < |m.inner| ==> !IsOrphan(m'.inner[i].status))
            && (forall i :: 0 <= i < |m.inner| && !IsOrphan(m.inner[i].status) ==> m'.inner[i] == m.inner[i])
            && (forall i :: 0 <= i < |m.inner| && IsOrphan(m.inner[i].status) ==>
                  m'.inner[i] == m.inner[i].(status := Error, updated := now))
            && MemoryStep(m', RecoverOrphans, later) == (m', Count(0))
  {
    RecoverAllFacts(m.inner, now);
    RecoverAllCounts(m.inner, now);
    var after := RecoverAll(m.inner, now).0;
    NothingToRecover(after, later);
  }

  /** The rows that hold a queued or running job. */
  function OrphanRows(t: Table): (r: set<nat>)
    ensures forall k :: k in r <==> 0 <= k < |t| && IsOrphan(t[k].job.status)
  {
    set k: nat | k < |t| && IsOrphan(t[k].job.status)
  }

  /** Recovery of the table: as many rows as are orphans, no orphan left, nothing else touched, and once is enough. */
  lemma TableRecoveryIsExact(t: Table, now: nat, later: nat)
    ensures var (t', a) := TableStep(t, RecoverOrphans, now);
            && a == Count(|OrphanRows(t)|)
            && |t'| == |t|
            && (forall k :: 0 <= k < |t| ==> !IsOrphan(t'[k].job.status))
            && (forall k :: 0 <= k < |t| ==>
                  t'[k] == if IsOrphan(t[k].job.status) then t[k].(job := t[k].job.(status := Error, updated := now)) else t[k])
            && TableStep(t', RecoverOrphans, later) == (t', Count(0))
  {
    AffectedCounts(t);
    var t' := TableStep(t, RecoverOrphans, now).0;
    AffectedCounts(t');
    assert OrphanRows(t') == {};
    assert UpdateWhere(t', RowIsOrphan(), RecoverRow(later)) == t';
  }

  lemma AffectedCounts(t: Table)
    ensures Affected(t, RowIsOrphan()) == |OrphanRows(t)|
  {
    AffectedFrom(t, 0);
    assert t[0..] == t;
    assert OrphanRows(t) == OrphanRowsFrom(t, 0);
  }

  function OrphanRowsFrom(t: Table, n: nat): set<nat> {
    set k: nat | n <= k < |t| && IsOrphan(t[k].job.status)
  }

  lemma OrphanRowsAt(t: Table, n: nat)
    requires n < |t|
    ensures OrphanRowsFrom(t, n) == if IsOrphan(t[n].job.status) then OrphanRowsFrom(t, n + 1) + {n} else OrphanRowsFrom(t, n + 1)
    ensures n !in OrphanRowsFrom(t, n + 1)
  {
  }

  lemma {:induction false} AffectedFrom(t: Table, n: nat)
    requires n <= |t|
    ensures Affected(t[n..], RowIsOrphan()) == |OrphanRowsFrom(t, n)|
    decreases |t| - n
  {
    if n == |t| {
      assert OrphanRowsFrom(t, n) == {};
    } else {
      AffectedFrom(t, n + 1);
      OrphanRowsAt(t, n);
      hide OrphanRowsFrom;
      assert t[n..][1..] == t[n + 1..];
    }
  }

  lemma {:induction false} RecoverAllCounts(inner: seq<Job>, now: nat)
    ensures RecoverAll(inner, now).1 == OrphanCount(inner)
  {
    if inner != [] {
      RecoverAllCounts(inner[1..], now);
    }
  }

  lemma {:induction false} NothingToRecover(inner: seq<Job>, now: nat)
    requires forall i :: 0 <= i < |inner| ==> !IsOrphan(inner[i].status)
    ensures RecoverAll(inner, now) == (inner, 0)
  {
    if inner != [] {
      NothingToRecover(inner[1..], now);
      assert inner == [inner[0]] + inner[1..];
    }
  }

  // -------------------------------------------------------------- log positions

  /** Every log entry carries its position as its id. */
  ghost predicate LogIdsArePositions(m: Memory) {
    forall id :: id in m.logs ==> forall k :: 0 <= k < |m.logs[id]| ==> m.logs[id][k].id == Decimal(k)
  }

  lemma StepKeepsLogIds(m: Memory, op: Op, now: nat)
    requires LogIdsArePositions(m)
    ensures LogIdsArePositions(MemoryStep(m, op, now).0)
    ensures op.AppendLog? && Find(m.inner, op.id).Some? ==>
              LogsOf(MemoryStep(m, op, now).0, op.id) == LogsOf(m, op.id) + [NewLog(|LogsOf(m, op.id)|, op.level, op.message, now)]
  {
    hide Find, Where, RecoverAll, Decimal, Iso8601;
  }

  // ------------------------------------------------- what a caller sees of a step

  /** The job that asking for the id finds. */
  function Lookup(inner: seq<Job>, id: string): Option<Job> {
    var i := Find(inner, id);
    if i.None? then None else Some(inner[i.value])
  }

  lemma LookupFirst(job: Job, rest: seq<Job>, id: string)
    ensures Lookup([job] + rest, id) == if job.id == id then Some(job) else Lookup(rest, id)
  {
    assert ([job] + rest)[1..] == rest;
  }

  lemma WhereFirst(job: Job, rest: seq<Job>, keep: Job -> bool)
    ensures Where([job] + rest, keep) == if keep(job) then [job] + Where(rest, keep) else Where(rest, keep)
  {
    assert ([job] + rest)[1..] == rest;
    assert [] + Where(rest, keep) == Where(rest, keep);
  }

  lemma WhereFrom(inner: seq<Job>, i: nat, keep: Job -> bool)
    requires i < |inner|
    ensures Where(inner[i..], keep) == if keep(inner[i]) then [inner[i]] + Where(inner[i + 1..], keep) else Where(inner[i + 1..], keep)
  {
    assert inner[i..] == [inner[i]] + inner[i + 1..];
    WhereFirst(inner[i], inner[i + 1..], keep);
    hide Where;
  }

  lemma {:induction false} LookupAfterAppend(inner: seq<Job>, job: Job, id: string)
    ensures Lookup(inner + [job], id)
            == if Lookup(inner, id).None? && job.id == id then Some(job) else Lookup(inner, id)
  {
    if inner == [] {
      assert inner + [job] == [job] + [];
      LookupFirst(job, [], id);
    } else {
      var first, rest := inner[0], inner[1..];
      LookupAfterAppend(rest, job, id);
      assert inner == [first] + rest && inner + [job] == [first] + (rest + [job]);
      LookupFirst(first, rest, id);
      LookupFirst(first, rest + [job], id);
      hide *;
    }
  }

  lemma {:induction false} LookupAfterDelete(inner: seq<Job>, gone: string, id: string)
    ensures Lookup(Where(inner, IsNot(gone)), id) == if id == gone then None else Lookup(inner, id)
  {
    if inner != [] {
      var first, rest := inner[0], inner[1..];
      LookupAfterDelete(rest, gone, id);
      assert inner == [first] + rest;
      WhereFirst(first, rest, IsNot(gone));
      LookupFirst(first, rest, id);
      LookupFirst(first, Where(rest, IsNot(gone)), id);
      hide Where, Lookup;
    }
  }

  lemma {:induction false} WhereAppend(inner: seq<Job>, job: Job, keep: Job -> bool)
    ensures Where(inner + [job], keep) == Where(inner, keep) + (if keep(job) then [job] else [])
  {
    if inner == [] {
      assert inner + [job] == [job] + [];
      WhereFirst(job, [], keep);
    } else {
      var first, rest := inner[0], inner[1..];
      WhereAppend(rest, job, keep);
      assert inner == [first] + rest && inner + [job] == [first] + (rest + [job]);
      WhereFirst(first, rest, keep);
      WhereFirst(first, rest + [job], keep);
      hide Where;
    }
  }

  lemma {:induction false} WhereCommutes(inner: seq<Job>, p: Job -> bool, q: Job -> bool)
    ensures Where(Where(inner, p), q) == Where(Where(inner, q), p)
  {
    if inner != [] {
      var first, rest := inner[0], inner[1..];
      WhereCommutes(rest, p, q);
      assert inner == [first] + rest;
      WhereFirst(first, rest, p);
      WhereFirst(first, rest, q);
      WhereFirst(first, Where(rest, p), q);
      WhereFirst(first, Where(rest, q), p);
      hide Where;
    }
  }

  /** Asking for `id` finds `job` from now on; every other record stays as and where it was. */
  ghost predicate OnlyChanges(before: seq<Job>, after: seq<Job>, id: string, job: Job) {
    && (forall other :: Lookup(after, other) == if other == id then Some(job) else Lookup(before, other))
    && |after| == |before|
    && (forall k :: 0 <= k < |before| ==> after[k].id == before[k].id && (before[k].id != id ==> after[k] == before[k]))
  }

  lemma {:induction false} LookupAfterUpdate(inner: seq<Job>, i: nat, job: Job, id: string)
    requires Find(inner, job.id) == Some(i)
    ensures Lookup(inner[i := job], id) == if id == job.id then Some(job) else Lookup(inner, id)
  {
    var first, rest := inner[0], inner[1..];
    assert inner == [first] + rest;
    LookupFirst(first, rest, id);
    if i == 0 {
      assert inner[0 := job] == [job] + rest;
      LookupFirst(job, rest, id);
    } else {
      assert inner[i := job] == [first] + rest[i - 1 := job];
      LookupFirst(first, rest[i - 1 := job], id);
      LookupAfterUpdate(rest, i - 1, job, id);
    }
    hide Lookup;
  }

  lemma UpdateOnlyChanges(inner: seq<Job>, i: nat, job: Job)
    requires Find(inner, job.id) == Some(i)
    ensures OnlyChanges(inner, inner[i := job], job.id, job)
  {
    assert inner[i].id == job.id;
    hide Lookup, Find;
    forall other
      ensures Lookup(inner[i := job], other) == if other == job.id then Some(job) else Lookup(inner, other)
    {
      LookupAfterUpdate(inner, i, job, other);
    }
    var after := inner[i := job];
    assert forall k :: 0 <= k < |inner| ==> after[k].id == inner[k].id && (inner[k].id != job.id ==> after[k] == inner[k]);
    assert forall other :: Lookup(after, other) == if other == job.id then Some(job) else Lookup(inner, other);
  }

  // -------------------------------------------------------- the in-memory store

  class InMemoryJobStore {
    var inner: seq<Job>
    var logs: map<string, seq<LogEntry>>

    constructor ()
      ensures State() == Memory([], map[])
    {
      inner, logs := [], map[];
    }

    ghost function State(): Memory
      reads this
    {
      Memory(inner, logs)
    }

    /** Scans for the record with the id. */
    method Position(id: string) returns (r: Option<nat>)
      ensures r == Find(inner, id)
    {
      for i := 0 to |inner|
        invariant forall k :: 0 <= k < i ==> inner[k].id != id
      {
        if inner[i].id == id {
          FirstMatch(inner, i);
          return Some(i);
        }
      }
      return None;
    }

    /** Under a new id the job is found from now on, alone at the end of its owner's list; nothing else changes. */
    method CreateJob(op: Op, now: nat) returns (a: Answer)
      requires op.Create?
      modifies this
      ensures (State(), a) == MemoryStep(old(State()), op, now)
      ensures forall id :: Lookup(inner, id) ==
                if id == op.id && Lookup(old(inner), id).None? then Some(a.job) else Lookup(old(inner), id)
      ensures forall user :: Where(inner, OwnedBy(user)) ==
                Where(old(inner), OwnedBy(user)) + (if user == op.userId then [a.job] else [])
      ensures a == Record(Job(op.id, op.userId, op.title, op.description, op.process, Created, Some(0.0), now, now, []))
      ensures logs == old(logs)
    {
      var job := NewJob(op, now);
      forall id
        ensures Lookup(inner + [job], id) == if id == op.id && Lookup(inner, id).None? then Some(job) else Lookup(inner, id)
      {
        LookupAfterAppend(inner, job, id);
      }
      forall user
        ensures Where(inner + [job], OwnedBy(user)) == Where(inner, OwnedBy(user)) + (if user == op.userId then [job] else [])
      {
        WhereAppend(inner, job, OwnedBy(user));
      }
      inner := inner + [job];
      a := Record(job);
    }

    method Get(id: string) returns (a: Answer)
      ensures (State(), a) == MemoryStep(State(), GetJob(id), 0)
      ensures a == (if Lookup(inner, id).None? then NotFound(id) else Record(Lookup(inner, id).value))
    {
      var i := Position(id);
      a := if i.None? then NotFound(id) else Record(inner[i.value]);
    }

    method ListFor(user: string) returns (a: Answer)
      ensures (State(), a) == MemoryStep(State(), ListForUser(user), 0)
    {
      var out := Retained(inner, OwnedBy(user));
      a := Records(out);
    }

    method SetJobStatus(id: string, s: JobStatus, now: nat) returns (a: Answer)
      modifies this
      ensures (State(), a) == MemoryStep(old(State()), SetStatus(id, s), now)
      ensures a == (if Lookup(old(inner), id).None? then NotFound(id) else Done) && logs == old(logs)
      ensures a.NotFound? ==> inner == old(inner)
      ensures a.Done? ==>
                var j := Lookup(old(inner), id).value;
                OnlyChanges(old(inner), inner, id,
                            Job(id, j.userId, j.title, j.description, j.process, s, j.progress, j.created, now, j.assets))
    {
      hide Find, OnlyChanges;
      var i := Position(id);
      if i.None? {
        return NotFound(id);
      }
      var job := inner[i.value].(status := s, updated := now);
      UpdateOnlyChanges(inner, i.value, job);
      inner := inner[i.value := job];
      return Done;
    }

    method SetJobProgress(id: string, p: real, now: nat) returns (a: Answer)
      modifies this
      ensures (State(), a) == MemoryStep(old(State()), SetProgress(id, p), now)
      ensures a == (if Lookup(old(inner), id).None? then NotFound(id) else Done) && logs == old(logs)
      ensures a.NotFound? ==> inner == old(inner)
      ensures a.Done? ==>
                var j := Lookup(old(inner), id).value;
                var progress := if p < 0.0 then 0.0 else if p <= 100.0 then p else 100.0;
                OnlyChanges(old(inner), inner, id,
                            Job(id, j.userId, j.title, j.description, j.process, j.status, Some(progress), j.created, now, j.assets))
    {
      hide Find, OnlyChanges;
      var i := Position(id);
      if i.None? {
        return NotFound(id);
      }
      var job := inner[i.value].(progress := Some(Clamp(p)), updated := now);
      UpdateOnlyChanges(inner, i.value, job);
      inner := inner[i.value := job];
      return Done;
    }

    method SetJobMetadata(id: string, title: Option<string>, description: Option<string>, now: nat) returns (a: Answer)
      modifies this
      ensures (State(), a) == MemoryStep(old(State()), SetMetadata(id, title, description), now)
      ensures a == (if Lookup(old(inner), id).None? then NotFound(id) else Done) && logs == old(logs)
      ensures a.NotFound? ==> inner == old(inner)
      ensures a.Done? ==>
                var j := Lookup(old(inner), id).value;
                OnlyChanges(old(inner), inner, id,
                            Job(id, j.userId, if title == None then j.title else title, if description == None then j.description else description,
                                j.process, j.status, j.progress, j.created, now, j.assets))
    {
      hide Find, OnlyChanges;
      var i := Position(id);
      if i.None? {
        return NotFound(id);
      }
      var job := inner[i.value];
      if title.Some? {
        job := job.(title := title);
      }
      if description.Some? {
        job := job.(description := description);
      }
      job := job.(updated := now);
      UpdateOnlyChanges(inner, i.value, job);
      inner := inner[i.value := job];
      return Done;
    }

    /** The job and its log are gone, if they were there; all other jobs, logs and lists stay as they were. */
    method DeleteJob(id: string) returns (a: Answer)
      modifies this
      ensures (State(), a) == MemoryStep(old(State()), Delete(id), 0)
      ensures forall other :: Lookup(inner, other) == if other == id then None else Lookup(old(inner), other)
      ensures forall other :: LogsOf(State(), other) == if other == id then [] else LogsOf(old(State()), other)
      ensures forall user :: Where(inner, OwnedBy(user)) == Where(Where(old(inner), OwnedBy(user)), IsNot(id))
    {
      var kept := Retained(inner, IsNot(id));
      forall other
        ensures Lookup(kept, other) == if other == id then None else Lookup(inner, other)
      {
        LookupAfterDelete(inner, id, other);
      }
      forall user
        ensures Where(kept, OwnedBy(user)) == Where(Where(inner, OwnedBy(user)), IsNot(id))
      {
        WhereCommutes(inner, IsNot(id), OwnedBy(user));
      }
      inner := kept;
      logs := logs - {id};
      return Done;
    }

    method AddJobAsset(id: string, asset: Asset, now: nat) returns (a: Answer)
      modifies this
      ensures (State(), a) == MemoryStep(old(State()), AddAsset(id, asset), now)
      ensures a == (if Lookup(old(inner), id).None? then NotFound(id) else Done) && logs == old(logs)
      ensures a.NotFound? ==> inner == old(inner)
      ensures a.Done? ==>
                var j := Lookup(old(inner), id).value;
                OnlyChanges(old(inner), inner, id,
                            Job(id, j.userId, j.title, j.description, j.process, j.status, j.progress, j.created, now, j.assets + [asset]))
    {
      hide Find, OnlyChanges;
      var i := Position(id);
      if i.None? {
        return NotFound(id);
      }
      var job := inner[i.value];
      job := job.(assets := job.assets + [asset], updated := now);
      UpdateOnlyChanges(inner, i.value, job);
      inner := inner[i.value := job];
      return Done;
    }

    method AppendJobLog(id: string, level: string, message: string, now: nat) returns (a: Answer)
      modifies this
      ensures (State(), a) == MemoryStep(old(State()), AppendLog(id, level, message), now)
      ensures a == (if Lookup(inner, id).None? then NotFound(id) else Done) && inner == old(inner)
      ensures a.NotFound? ==> logs == old(logs)
      ensures a.Done? ==>
                forall other :: LogsOf(State(), other) ==
                  if other == id
                  then LogsOf(old(State()), id) + [LogEntry(Decimal(|LogsOf(old(State()), id)|), level, message, Iso8601(now))]
                  else LogsOf(old(State()), other)
    {
      hide Find, Decimal, Iso8601;
      var i := Position(id);
      if i.None? {
        return NotFound(id);
      }
      var entries := if id in logs then logs[id] else [];
      logs := logs[id := entries + [NewLog(|entries|, level, message, now)]];
      return Done;
    }

    method GetJobLogs(id: string) returns (a: Answer)
      ensures (State(), a) == MemoryStep(State(), GetLogs(id), 0)
      ensures a == (if Lookup(inner, id).None? then NotFound(id) else Logs(LogsOf(State(), id)))
    {
      var i := Position(id);
      a := if i.None? then NotFound(id) else Logs(if id in logs then logs[id] else []);
    }

    method Recover(now: nat) returns (a: Answer)
      modifies this
      ensures (State(), a) == MemoryStep(old(State()), RecoverOrphans, now)
    {
      ghost var before := inner;
      var n := 0;
      for i := 0 to |inner|
        invariant |inner| == |before| && logs == old(logs)
        invariant forall k :: i <= k < |inner| ==> inner[k] == before[k]
        invariant forall k :: 0 <= k < i ==> inner[k] == RecoveredJob(before[k], now)
        invariant n + OrphanCount(before[i..]) == OrphanCount(before)
      {
        assert before[i..][1..] == before[i + 1..];
        if IsOrphan(inner[i].status) {
          inner := inner[i := inner[i].(status := Error, updated := now)];
          n := n + 1;
        }
      }
      RecoverAllFacts(before, now);
      RecoverAllCounts(before, now);
      assert inner == RecoverAll(before, now).0;
      return Count(n);
    }
  }

  /** The records that pass the test, in order. */
  method Retained(inner: seq<Job>, keep: Job -> bool) returns (out: seq<Job>)
    ensures out == Where(inner, keep)
  {
    out := [];
    assert inner[0..] == inner && [] + Where(inner, keep) == Where(inner, keep);
    for i := 0 to |inner|
      invariant out + Where(inner[i..], keep) == Where(inner, keep)
    {
      WhereFrom(inner, i, keep);
      hide Where;
      ghost var rest := Where(inner[i + 1..], keep);
      if keep(inner[i]) {
        assert (out + [inner[i]]) + rest == out + ([inner[i]] + rest);
        out := out + [inner[i]];
      }
    }
    assert inner[|inner|..] == [] && out + [] == out;
  }

  lemma {:induction false} FirstMatch(inner: seq<Job>, i: nat)
    requires i < |inner| && forall k :: 0 <= k < i ==> inner[k].id != inner[i].id
    ensures Find(inner, inner[i].id) == Some(i)
  {
    if i > 0 {
      FirstMatch(inner[1..], i - 1);
    }
  }
}
