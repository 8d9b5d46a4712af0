/**
 The file caches with least-recently-used eviction (crates/orbit-geo/src/cache.rs and
 crates/orbit-cache/src/lib.rs). Both keep the same index and evict by the same loop; they
 differ in their locks and in the order in which a hash map is walked.

 A key stands for the hash of a URL and for the file of that name in the cache directory.
 */
module LruCache {
  import opened Wrappers

  datatype Entry = Entry(size: nat, lastAccess: nat)

  type Index = map<string, Entry>

  /** A file of the cache directory as the system reports it. */
  datatype File = File(size: nat, accessed: nat)

  ghost function Total(index: Index): nat {
    if index == map[] then 0
    else
      var k :| k in index;
      index[k].size + Total(index - {k})
  }

  lemma {:induction false} TotalRemove(index: Index, k: string)
    requires k in index
    ensures Total(index) == index[k].size + Total(index - {k})
    decreases |index|
  {
    var j :| j in index && Total(index) == index[j].size + Total(index - {j});
    if j != k {
      TotalRemove(index - {j}, k);
      TotalRemove(index - {k}, j);
      assert index - {j} - {k} == index - {k} - {j};
    }
  }

  lemma TotalPut(index: Index, k: string, e: Entry)
    ensures Total(index[k := e]) == e.size + Total(index - {k})
  {
    TotalRemove(index[k := e], k);
    assert index[k := e] - {k} == index - {k};
  }

  predicate Within(a: Index, b: Index) {
    forall k :: k in a ==> k in b && a[k] == b[k]
  }

  lemma {:induction false} TotalMonotone(a: Index, b: Index)
    requires Within(a, b)
    ensures Total(a) <= Total(b)
    decreases |a|
  {
    if a != map[] {
      var k :| k in a;
      TotalMonotone(a - {k}, b - {k});
      TotalRemove(a, k);
      TotalRemove(b, k);
    }
  }

  // ------------------------------------------------------- what eviction means

  /** Nothing removed is more recent than anything kept. */
  predicate KeepsRecent(before: Index, after: Index) {
    && Within(after, before)
    && forall v, k :: v in before && v !in after && k in after ==> before[v].lastAccess <= before[k].lastAccess
  }

  /** `v` can have been the last entry removed, when the total was still too large. */
  ghost predicate RemovedLast(max: nat, before: Index, after: Index, v: string) {
    && v in before && v !in after
    && (forall u :: u in before && u !in after ==> before[u].lastAccess <= before[v].lastAccess)
    && Total(after) + before[v].size > max
  }

  /** The outcome of evicting: least recent first, down to the cap, and no further than needed. */
  ghost predicate Evicts(max: nat, before: Index, after: Index) {
    if max == 0 then after == before
    else
      && Total(after) <= max
      && KeepsRecent(before, after)
      && (after == before || exists v :: RemovedLast(max, before, after, v))
  }

  lemma LastVictimIsAsRecentInBoth(max: nat, before: Index, a: Index, b: Index, v: string, u: string)
    requires max > 0 && Evicts(max, before, a) && Evicts(max, before, b)
    requires RemovedLast(max, before, a, v) && RemovedLast(max, before, b, u)
    ensures before[u].lastAccess <= before[v].lastAccess
  {
    if before[u].lastAccess > before[v].lastAccess {
      MoreThanMaxSurvives(max, before, b, u, a);
    }
  }

  /** What was there before the last removal cannot all survive another eviction. */
  lemma MoreThanMaxSurvives(max: nat, before: Index, b: Index, u: string, a: Index)
    requires RemovedLast(max, before, b, u) && Within(b, before) && Within(a, before)
    requires u in a && forall k :: k in b ==> k in a
    ensures Total(a) > max
  {
    TotalPut(b, u, before[u]);
    assert b - {u} == b;
    TotalMonotone(b[u := before[u]], a);
  }

  /** One more removal, of an entry accessed least recently, while the total is too large. */
  lemma RemovingLeastRecent(max: nat, before: Index, index: Index, lru: string)
    requires KeepsRecent(before, index) && Total(index) > max
    requires lru in index && forall k :: k in index ==> index[lru].lastAccess <= index[k].lastAccess
    ensures KeepsRecent(before, index - {lru}) && RemovedLast(max, before, index - {lru}, lru)
  {
    TotalRemove(index, lru);
    hide Total;
  }

  predicate AgreeExceptAt(before: Index, a: Index, b: Index, t: nat) {
    forall k :: k in before && before[k].lastAccess != t ==> (k in a <==> k in b)
  }

  /** Two evictions of the same index differ only in entries accessed at one same moment. */
  lemma EvictionsAgreeUpToTies(max: nat, before: Index, a: Index, b: Index)
    requires Evicts(max, before, a) && Evicts(max, before, b)
    ensures exists t :: AgreeExceptAt(before, a, b, t)
  {
    if a == b {
      assert AgreeExceptAt(before, a, b, 0);
    } else if a == before {
      var u :| RemovedLast(max, before, b, u);
      MoreThanMaxSurvives(max, before, b, u, a);
    } else if b == before {
      var v :| RemovedLast(max, before, a, v);
      MoreThanMaxSurvives(max, before, a, v, b);
    } else {
      var v :| RemovedLast(max, before, a, v);
      var u :| RemovedLast(max, before, b, u);
      LastVictimIsAsRecentInBoth(max, before, a, b, v, u);
      LastVictimIsAsRecentInBoth(max, before, b, a, u, v);
      assert AgreeExceptAt(before, a, b, before[v].lastAccess);
    }
  }

  predicate DistinctTimes(index: Index) {
    forall j, k :: j in index && k in index && j != k ==> index[j].lastAccess != index[k].lastAccess
  }

  /** Every entry accessed as late as the last victim could itself have been the last victim. */
  ghost predicate Forced(max: nat, before: Index, after: Index) {
    forall v, k :: RemovedLast(max, before, after, v) && k in before && before[k].lastAccess == before[v].lastAccess ==>
      RemovedLast(max, before, after, k)
  }

  lemma ForcedIsUnique(max: nat, before: Index, a: Index, b: Index)
    requires Evicts(max, before, a) && Evicts(max, before, b) && Forced(max, before, a)
    ensures a == b
  {
    if max > 0 && a == before && b != before {
      var u :| RemovedLast(max, before, b, u);
      MoreThanMaxSurvives(max, before, b, u, a);
    } else if max > 0 && a != before {
      var v :| RemovedLast(max, before, a, v);
      if b == before {
        MoreThanMaxSurvives(max, before, a, v, b);
      } else {
        var u :| RemovedLast(max, before, b, u);
        hide Total;
        SameVictims(max, before, a, v, b, u);
      }
    }
  }

  lemma SameVictims(max: nat, before: Index, a: Index, v: string, b: Index, u: string)
    requires max > 0 && Evicts(max, before, a) && Evicts(max, before, b) && Forced(max, before, a)
    requires RemovedLast(max, before, a, v) && RemovedLast(max, before, b, u)
    ensures a == b
  {
    LastVictimIsAsRecentInBoth(max, before, a, b, v, u);
    LastVictimIsAsRecentInBoth(max, before, b, a, u, v);
    KeptAreLater(max, before, a, v, b, u);
    hide KeepsRecent, RemovedLast, Total, Forced;
    forall k
      ensures k in a <==> k in b
    {
      NoMoreKept(max, before, a, v, b, k);
    }
    assert a.Keys == b.Keys;
  }

  lemma KeptAreLater(max: nat, before: Index, a: Index, v: string, b: Index, u: string)
    requires KeepsRecent(before, a) && KeepsRecent(before, b)
    requires RemovedLast(max, before, a, v) && RemovedLast(max, before, b, u)
    requires before[u].lastAccess == before[v].lastAccess && Forced(max, before, a)
    ensures forall j :: j in a ==> j in b
    ensures forall j :: j in b ==> before[j].lastAccess >= before[v].lastAccess
  {
    hide Total;
  }

  lemma NoMoreKept(max: nat, before: Index, a: Index, v: string, b: Index, k: string)
    requires Within(a, before) && Within(b, before) && Forced(max, before, a) && Total(b) <= max
    requires RemovedLast(max, before, a, v) && (forall j :: j in a ==> j in b)
    requires forall j :: j in b ==> before[j].lastAccess >= before[v].lastAccess
    ensures k in b ==> k in a
  {
    if k in b && k !in a {
      assert RemovedLast(max, before, a, k);
      MoreThanMaxSurvives(max, before, a, k, b);
    }
  }

  predicate IsLeast(index: Index, k: string) {
    k in index && forall j :: j in index ==> index[k].lastAccess <= index[j].lastAccess
  }

  lemma LeastExists(index: Index) returns (k: string)
    requires index != map[]
    ensures IsLeast(index, k)
    decreases |index|
  {
    var first :| first in index;
    var rest := index - {first};
    assert forall j :: j in index ==> j == first || j in rest;
    k := first;
    if rest != map[] {
      var j := LeastExists(rest);
      if index[j].lastAccess < index[first].lastAccess {
        k := j;
      }
    }
  }

  /** Whatever has been removed least recent first, evicting can go on from there to an outcome. */
  lemma {:induction false} EvictFurther(max: nat, before: Index, index: Index) returns (after: Index)
    requires max > 0 && KeepsRecent(before, index) && Total(index) > max
    ensures Evicts(max, before, after) && Within(after, index)
    decreases |index|
  {
    var k := LeastExists(index);
    RemovingLeastRecent(max, before, index, k);
    after := index - {k};
    if Total(after) > max {
      hide RemovedLast, Total;
      after := EvictFurther(max, before, after);
    }
  }

  /** An eviction that is not forced has another outcome. */
  lemma UnforcedHasAnother(max: nat, before: Index, a: Index) returns (b: Index)
    requires Evicts(max, before, a) && !Forced(max, before, a)
    ensures Evicts(max, before, b) && b != a
  {
    var v, k :| RemovedLast(max, before, a, v) && k in before && before[k].lastAccess == before[v].lastAccess
                && !RemovedLast(max, before, a, k);
    if k in a {
      b := Swapped(max, before, a, v, k);
    } else {
      b := a[k := before[k]];
      TotalPut(a, k, before[k]);
      assert a - {k} == a;
      assert RemovedLast(max, before, b, v);
    }
  }

  /** Removing `k`, accessed together with the last victim `v`, in its stead. */
  lemma Swapped(max: nat, before: Index, a: Index, v: string, k: string) returns (b: Index)
    requires max > 0 && Evicts(max, before, a) && RemovedLast(max, before, a, v)
    requires k in a && before[k].lastAccess == before[v].lastAccess
    ensures Evicts(max, before, b) && k !in b
  {
    b := (a - {k})[v := before[v]];
    TotalRemove(a, k);
    TotalPut(a - {k}, v, before[v]);
    assert a - {k} - {v} == a - {k};
    if Total(b) > max {
      hide RemovedLast, Total;
      b := EvictFurther(max, before, b);
    } else {
      assert RemovedLast(max, before, b, k);
    }
  }

  /** An eviction has no other outcome, whatever the walk of the hash map, exactly when it is forced. */
  lemma UniqueIffForced(max: nat, before: Index, a: Index)
    requires Evicts(max, before, a)
    ensures Forced(max, before, a) <==> forall b :: Evicts(max, before, b) ==> b == a
  {
    hide Evicts, Forced;
    if Forced(max, before, a) {
      forall b | Evicts(max, before, b)
        ensures b == a
      {
        ForcedIsUnique(max, before, a, b);
      }
    } else {
      var b := UnforcedHasAnother(max, before, a);
    }
  }

  /** In particular without ties. */
  lemma EvictUnique(max: nat, before: Index, a: Index, b: Index)
    requires Evicts(max, before, a) && Evicts(max, before, b) && DistinctTimes(before)
    ensures a == b
  {
    assert Forced(max, before, a);
    ForcedIsUnique(max, before, a, b);
  }

  // ----------------------------------------------------- whether one entry is kept

  /** The entries accessed no earlier than `k`, itself included. */
  function NoOlder(before: Index, k: string): Index
    requires k in before
  {
    map j | j in before && before[j].lastAccess >= before[k].lastAccess :: before[j]
  }

  /** The entry `k` and those accessed later. */
  function WithLater(before: Index, k: string): Index
    requires k in before
  {
    map j | j in before && (j == k || before[j].lastAccess > before[k].lastAccess) :: before[j]
  }

  lemma KeptIfNoOlderFit(max: nat, before: Index, after: Index, k: string)
    requires Evicts(max, before, after) && k in before && (max == 0 || Total(NoOlder(before, k)) <= max)
    ensures k in after
  {
    if max > 0 && k !in after {
      var v :| RemovedLast(max, before, after, v);
      var last := after[v := before[v]];
      TotalPut(after, v, before[v]);
      assert after - {v} == after;
      TotalMonotone(last, NoOlder(before, k));
    }
  }

  lemma DroppedByAnother(max: nat, before: Index, k: string) returns (after: Index)
    requires k in before && max > 0 && Total(NoOlder(before, k)) > max
    ensures Evicts(max, before, after) && k !in after
  {
    var index := NoOlder(before, k);
    RemovingLeastRecent(max, before, index, k);
    after := index - {k};
    if Total(after) > max {
      hide RemovedLast, Total, NoOlder;
      after := EvictFurther(max, before, after);
    }
  }

  /** However the map is walked, `k` is kept: exactly when all entries accessed no earlier fit the cap together. */
  lemma SurelyKeptIff(max: nat, before: Index, k: string)
    requires k in before
    ensures (forall after :: Evicts(max, before, after) ==> k in after) <==> max == 0 || Total(NoOlder(before, k)) <= max
  {
    hide Evicts, Total, NoOlder;
    if max == 0 || Total(NoOlder(before, k)) <= max {
      forall after | Evicts(max, before, after)
        ensures k in after
      {
        KeptIfNoOlderFit(max, before, after, k);
      }
    } else {
      var after := DroppedByAnother(max, before, k);
    }
  }

  lemma KeptOnlyIfLaterFit(max: nat, before: Index, after: Index, k: string)
    requires Evicts(max, before, after) && k in after
    ensures max == 0 || Total(WithLater(before, k)) <= max
  {
    if max > 0 {
      TotalMonotone(WithLater(before, k), after);
    }
  }

  /** While more than `k` and the later entries is left, something else is least recent. */
  lemma SparingVictim(before: Index, index: Index, k: string) returns (u: string)
    requires k in before && Within(index, before) && Within(WithLater(before, k), index) && !Within(index, WithLater(before, k))
    ensures IsLeast(index, u) && u !in WithLater(before, k)
  {
    var others := index - WithLater(before, k).Keys;
    var x :| x in index && !(x in WithLater(before, k) && index[x] == WithLater(before, k)[x]);
    assert x in others;
    u := LeastExists(others);
    assert forall x :: x in index ==> x in others || x in WithLater(before, k);
  }

  /** An eviction that spares `k` as long as anything else may go first. */
  lemma {:induction false} EvictSparing(max: nat, before: Index, index: Index, k: string) returns (after: Index)
    requires k in before && max > 0 && Total(WithLater(before, k)) <= max
    requires KeepsRecent(before, index) && Within(WithLater(before, k), index) && Total(index) > max
    ensures Evicts(max, before, after) && k in after
    decreases |index|
  {
    var kept := WithLater(before, k);
    if Within(index, kept) {
      TotalMonotone(index, kept);
    }
    assert k in kept;
    var u := SparingVictim(before, index, k);
    RemovingLeastRecent(max, before, index, u);
    after := index - {u};
    if Total(after) > max {
      hide RemovedLast, Total, WithLater;
      after := EvictSparing(max, before, after, k);
    }
  }

  lemma KeptBySome(max: nat, before: Index, k: string) returns (after: Index)
    requires k in before && (max == 0 || Total(WithLater(before, k)) <= max)
    ensures Evicts(max, before, after) && k in after
  {
    after := before;
    if max > 0 && Total(before) > max {
      after := EvictSparing(max, before, before, k);
    }
  }

  /** Some walk of the map keeps `k`: exactly when it fits the cap with the entries accessed later. */
  lemma PossiblyKeptIff(max: nat, before: Index, k: string)
    requires k in before
    ensures (exists after :: Evicts(max, before, after) && k in after) <==> max == 0 || Total(WithLater(before, k)) <= max
  {
    hide Evicts, Total, WithLater;
    if max == 0 || Total(WithLater(before, k)) <= max {
      var after := KeptBySome(max, before, k);
    }
    forall after | Evicts(max, before, after) && k in after
      ensures max == 0 || Total(WithLater(before, k)) <= max
    {
      KeptOnlyIfLaterFit(max, before, after, k);
    }
  }

  // ------------------------------------------------ every outcome is the loop's

  ghost predicate RemovesLeast(index: Index, index': Index) {
    exists k :: IsLeast(index, k) && index' == index - {k}
  }

  /** The eviction loop: least recent entries go one at a time while the total is too large. */
  ghost predicate IsEviction(max: nat, trace: seq<Index>) {
    && trace != []
    && (forall i :: 0 <= i < |trace| - 1 ==> Total(trace[i]) > max && RemovesLeast(trace[i], trace[i + 1]))
    && Total(trace[|trace| - 1]) <= max
  }

  lemma {:induction false} LoopKeeps(max: nat, trace: seq<Index>, i: nat)
    requires IsEviction(max, trace) && i < |trace|
    ensures KeepsRecent(trace[0], trace[i]) && (i > 0 ==> exists v :: RemovedLast(max, trace[0], trace[i], v))
  {
    if i > 0 {
      LoopKeeps(max, trace, i - 1);
      assert RemovesLeast(trace[i - 1], trace[i]);
      var k :| IsLeast(trace[i - 1], k) && trace[i] == trace[i - 1] - {k};
      RemovingLeastRecent(max, trace[0], trace[i - 1], k);
    }
  }

  /** From any index between, the loop can go on to the given outcome, removing `v` last. */
  lemma {:induction false} LoopReaches(max: nat, before: Index, after: Index, v: string, index: Index) returns (trace: seq<Index>)
    requires max > 0 && Evicts(max, before, after) && RemovedLast(max, before, after, v)
    requires Within(after, index) && Within(index, before) && (index == after || v in index)
    ensures IsEviction(max, trace) && trace[0] == index && trace[|trace| - 1] == after
    decreases |index|
  {
    if index == after {
      trace := [index];
    } else {
      StillTooLarge(max, before, after, v, index);
      var u := NextVictim(max, before, after, v, index);
      hide *;
      var rest := LoopReaches(max, before, after, v, index - {u});
      trace := LoopGoesOn(max, index, u, rest);
    }
  }

  lemma StillTooLarge(max: nat, before: Index, after: Index, v: string, index: Index)
    requires RemovedLast(max, before, after, v) && Within(after, index) && Within(index, before) && v in index
    ensures Total(index) > max
  {
    TotalPut(after, v, before[v]);
    assert after - {v} == after;
    TotalMonotone(after[v := before[v]], index);
  }

  lemma LoopGoesOn(max: nat, index: Index, u: string, rest: seq<Index>) returns (trace: seq<Index>)
    requires IsEviction(max, rest) && rest[0] == index - {u} && IsLeast(index, u) && Total(index) > max
    ensures IsEviction(max, trace) && trace == [index] + rest
  {
    trace := [index] + rest;
    assert RemovesLeast(index, rest[0]);
    hide RemovesLeast, Total, IsLeast;
    forall i | 0 <= i < |trace| - 1
      ensures Total(trace[i]) > max && RemovesLeast(trace[i], trace[i + 1])
    {
      if i > 0 {
        assert trace[i] == rest[i - 1] && trace[i + 1] == rest[i];
      }
    }
  }

  /** The victim to remove next: least recent, and `v` only when it is the last. */
  lemma NextVictim(max: nat, before: Index, after: Index, v: string, index: Index) returns (u: string)
    requires KeepsRecent(before, after) && Within(after, index) && Within(index, before) && v in index
    requires RemovedLast(max, before, after, v)
    ensures IsLeast(index, u)
    ensures Within(after, index - {u}) && Within(index - {u}, before) && (index - {u} == after || v in index - {u})
  {
    var victims := index - after.Keys - {v};
    if victims == map[] {
      u := v;
      assert forall x :: x in index && x !in after && x != v ==> x in victims;
      assert (index - {u}).Keys == after.Keys;
    } else {
      u := LeastExists(victims);
      assert forall x :: x in index ==> x in victims || x in after || x == v;
    }
  }

  /** What `Evicts` allows is exactly what the loop can come to, with some walk of the map. */
  lemma EvictsIffLoopReaches(max: nat, before: Index, after: Index)
    requires max > 0
    ensures Evicts(max, before, after) <==> exists trace :: IsEviction(max, trace) && trace[0] == before && trace[|trace| - 1] == after
  {
    if Evicts(max, before, after) {
      if after == before {
        var trace := [before];
        assert IsEviction(max, trace) && trace[0] == before && trace[|trace| - 1] == after;
      } else {
        var v :| RemovedLast(max, before, after, v);
        var trace := LoopReaches(max, before, after, v, before);
      }
    }
    if trace :| IsEviction(max, trace) && trace[0] == before && trace[|trace| - 1] == after {
      LoopKeeps(max, trace, |trace| - 1);
    }
  }

  // ------------------------------------------------------ one caller at a time

  datatype Op =
    | Get(key: string, now: nat)
    | Insert(key: string, size: nat, now: nat)
    | Clear(now: nat)

  /** What one operation makes of the index; ties leave room for several outcomes. */
  ghost predicate Serves(max: nat, index: Index, op: Op, index': Index) {
    match op
    case Get(k, now) => index' == if k in index then index[k := index[k].(lastAccess := now)] else index
    case Insert(_, _, _) => Evicts(max, Inserted(index, op), index')
    case Clear(_) => index' == map[]
  }

  /** What copying a file into the cache directory came to: a failed copy may have written part of it. */
  datatype Copying = Whole(size: nat) | NotOpened | Torn(written: nat)

  /**
   The index lists the files of the directory, but for files the system refused to remove
   and files left torn by a failed copy.
   */
  predicate Mirrors(index: Index, files: map<string, nat>, stuck: set<string>, torn: set<string>) {
    && (forall k :: k in index ==> k in files && (k !in torn ==> files[k] == index[k].size))
    && (forall k :: k in files ==> k in index || k in stuck || k in torn)
  }

  /** The directory after removing a file, if the system allows it. */
  function Unlink(files: map<string, nat>, stuck: set<string>, k: string): map<string, nat> {
    if k in stuck then files else files - {k}
  }

  lemma UnlinkMirrors(index: Index, files: map<string, nat>, stuck: set<string>, torn: set<string>, k: string)
    requires Mirrors(index, files, stuck, torn)
    ensures Mirrors(index - {k}, Unlink(files, stuck, k), stuck, torn - {k})
  {
  }

  class FileCache {
    const maxBytes: nat
    /** Keys whose files the system refuses to remove; the cache ignores such failures. */
    const stuck: set<string>
    var index: Index
    var files: map<string, nat>
    var hits: nat
    var misses: nat
    /** Keys whose files a failed copy has left in an unknown state. */
    ghost var torn: set<string>

    ghost predicate Valid()
      reads this
    {
      Mirrors(index, files, stuck, torn)
    }

    /** Opening lists every file of the directory. Nothing is evicted yet. */
    constructor Open(maxBytes: nat, stuck: set<string>, directory: map<string, File>)
      ensures Valid() && this.maxBytes == maxBytes && this.stuck == stuck && hits == misses == 0 && torn == {}
      ensures files == map k | k in directory :: directory[k].size
      ensures index == map k | k in directory :: Entry(directory[k].size, directory[k].accessed)
    {
      this.maxBytes := maxBytes;
      this.stuck := stuck;
      files := map k | k in directory :: directory[k].size;
      hits, misses, torn := 0, 0, {};
      var found: Index := map[];
      var rest := directory.Keys;
      while rest != {}
        invariant rest <= directory.Keys
        invariant found == map k | k in directory && k !in rest :: Entry(directory[k].size, directory[k].accessed)
      {
        var k :| k in rest;
        found := found[k := Entry(directory[k].size, directory[k].accessed)];
        rest := rest - {k};
      }
      index := found;
    }

    method Get(key: string, now: nat) returns (path: Option<string>)
      requires Valid()
      modifies this`index, this`hits, this`misses
      ensures Valid() && Serves(maxBytes, old(index), Op.Get(key, now), index)
      ensures path == if key in old(index) then Some(key) else None
      ensures path.Some? ==> key in files && hits == old(hits) + 1 && misses == old(misses)
      ensures path.None? ==> hits == old(hits) && misses == old(misses) + 1
    {
      if key in index {
        index := index[key := index[key].(lastAccess := now)];
        hits := hits + 1;
        return Some(key);
      }
      misses := misses + 1;
      return None;
    }

    /**
     Copies a file in, then evicts. The path is returned even when the new file itself was
     evicted: with all entries accessed no earlier fitting the cap it is kept, and with those
     accessed later it must fit. A copy that fails leaves the index alone, but not the file it
     had begun to write.
     */
    method Insert(key: string, source: Copying, now: nat) returns (path: Option<string>)
      requires Valid()
      modifies this`index, this`files, this`torn
      ensures Valid()
      ensures path.Some? <==> source.Whole?
      ensures source.NotOpened? ==> index == old(index) && files == old(files) && torn == old(torn)
      ensures source.Torn? ==> index == old(index) && files == old(files)[key := source.written] && torn == old(torn) + {key}
      ensures source.Whole? ==>
                && path.value == key && torn <= old(torn) - {key}
                && Serves(maxBytes, old(index), Op.Insert(key, source.size, now), index)
      ensures source.Whole? && maxBytes > 0 ==> Total(index) <= maxBytes
      ensures source.Whole? ==>
                var made := old(index)[key := Entry(source.size, now)];
                && (maxBytes == 0 || Total(NoOlder(made, key)) <= maxBytes ==> key in index)
                && (key in index ==> maxBytes == 0 || Total(WithLater(made, key)) <= maxBytes)
    {
      if source.NotOpened? {
        return None;
      }
      if source.Torn? {
        files := files[key := source.written];
        torn := torn + {key};
        return None;
      }
      files := files[key := source.size];
      torn := torn - {key};
      index := index[key := Entry(source.size, now)];
      ghost var made := index;
      EvictIfNeeded();
      if maxBytes == 0 || Total(NoOlder(made, key)) <= maxBytes {
        KeptIfNoOlderFit(maxBytes, made, index, key);
      }
      if key in index {
        KeptOnlyIfLaterFit(maxBytes, made, index, key);
      }
      return Some(key);
    }

    method EvictIfNeeded()
      requires Valid()
      modifies this`index, this`files, this`torn
      ensures Valid() && torn <= old(torn) && Evicts(maxBytes, old(index), index)
    {
      if maxBytes == 0 {
        return;
      }
      ghost var last: Option<string> := None;
      while true
        invariant Valid() && torn <= old(torn) && KeepsRecent(old(index), index)
        invariant last.None? ==> index == old(index)
        invariant last.Some? ==> RemovedLast(maxBytes, old(index), index, last.value)
        decreases |index|
      {
        hide Total, KeepsRecent, RemovedLast, Mirrors, Unlink;
        var total := TotalBytes(index);
        if total <= maxBytes {
          break;
        }
        if index == map[] {
          break;
        }
        var lru := LeastRecent(index);
        RemovingLeastRecent(maxBytes, old(index), index, lru);
        UnlinkMirrors(index, files, stuck, torn, lru);
        index := index - {lru};
        files := Unlink(files, stuck, lru);
        torn := torn - {lru};
        last := Some(lru);
      }
    }

    method Clear()
      requires Valid()
      modifies this`index, this`files
      ensures Valid() && index == map[] && files.Keys <= stuck + torn
    {
      files := map k | k in files && (k !in index || k in stuck) :: files[k];
      index := map[];
    }

    method Snapshot() returns (entries: nat, totalBytes: nat, h: nat, m: nat)
      ensures entries == |index| && totalBytes == Total(index) && h == hits && m == misses
    {
      entries, h, m := |index|, hits, misses;
      totalBytes := TotalBytes(index);
    }
  }

  /** The sum of the sizes, in whatever order the map is walked. */
  method TotalBytes(index: Index) returns (total: nat)
    ensures total == Total(index)
  {
    total := 0;
    var rest := index;
    while rest != map[]
      invariant total + Total(rest) == Total(index)
      decreases |rest|
    {
      var k :| k in rest;
      TotalRemove(rest, k);
      total := total + rest[k].size;
      rest := rest - {k};
    }
  }

  /** Some entry accessed least recently: the first one met. */
  method LeastRecent(index: Index) returns (lru: string)
    requires index != map[]
    ensures lru in index && forall k :: k in index ==> index[lru].lastAccess <= index[k].lastAccess
  {
    lru :| lru in index;
    var rest := index.Keys - {lru};
    while rest != {}
      invariant lru in index && rest <= index.Keys
      invariant forall k :: k in index && k !in rest ==> index[lru].lastAccess <= index[k].lastAccess
    {
      var k :| k in rest;
      if index[k].lastAccess < index[lru].lastAccess {
        lru := k;
      }
      rest := rest - {k};
    }
  }

  /**
   Reopening lists the files: the same keys exactly when the index listed every file, and a
   size anew exactly when the index had it wrong, which only a torn file's can be.
   */
  method CloseAndReopen(cache: FileCache, accessed: map<string, nat>) returns (again: FileCache)
    requires cache.Valid() && accessed.Keys == cache.files.Keys
    ensures again.Valid() && fresh(again)
    ensures again.index == map k | k in cache.files :: Entry(cache.files[k], if k in accessed then accessed[k] else 0)
    ensures again.index.Keys == cache.index.Keys <==> cache.files.Keys == cache.index.Keys
    ensures again.index.Keys <= cache.index.Keys + cache.stuck + cache.torn && cache.index.Keys <= again.index.Keys
    ensures forall k :: k in cache.index ==> (again.index[k].size == cache.index[k].size <==> cache.files[k] == cache.index[k].size)
    ensures forall k :: k in cache.index && k !in cache.torn ==> again.index[k].size == cache.index[k].size
  {
    again := new FileCache.Open(cache.maxBytes, cache.stuck, map k | k in cache.files && k in accessed :: File(cache.files[k], accessed[k]));
  }

  // ----------------------------------------------------- both caches side by side

  /** A history of one cache. */
  ghost predicate IsHistory(max: nat, indices: seq<Index>, ops: seq<Op>) {
    && |indices| == |ops| + 1
    && forall i :: 0 <= i < |ops| ==> Serves(max, indices[i], ops[i], indices[i + 1])
  }

  // ------------------------------------------------ what the index remembers

  /** Operation `j` inserted `k`, or asked for it while it was listed. */
  predicate Uses(indices: seq<Index>, ops: seq<Op>, j: nat, k: string)
    requires |indices| == |ops| + 1 && j < |ops|
  {
    match ops[j]
    case Get(key, _) => key == k && k in indices[j]
    case Insert(key, _, _) => key == k
    case Clear(_) => false
  }

  /** The last operation before `i` that used `k`, if there is one. */
  function LastUse(indices: seq<Index>, ops: seq<Op>, i: nat, k: string): (r: Option<nat>)
    requires |indices| == |ops| + 1 && i <= |ops|
    ensures r.Some? ==> r.value < i && Uses(indices, ops, r.value, k) && forall j: nat :: r.value < j < i ==> !Uses(indices, ops, j, k)
    ensures r.None? ==> forall j: nat :: j < i ==> !Uses(indices, ops, j, k)
  {
    if i == 0 then None
    else if Uses(indices, ops, i - 1, k) then Some(i - 1)
    else LastUse(indices, ops, i - 1, k)
  }

  /** The last operation before `i` that inserted `k`, if there is one. */
  function LastInsert(ops: seq<Op>, i: nat, k: string): (r: Option<nat>)
    requires i <= |ops|
    ensures r.Some? ==> r.value < i && ops[r.value].Insert? && ops[r.value].key == k
                        && forall j :: r.value < j < i ==> !(ops[j].Insert? && ops[j].key == k)
    ensures r.None? ==> forall j :: 0 <= j < i ==> !(ops[j].Insert? && ops[j].key == k)
  {
    if i == 0 then None
    else if ops[i - 1].Insert? && ops[i - 1].key == k then Some(i - 1)
    else LastInsert(ops, i - 1, k)
  }

  /** A listed key's access time is that of its last use, and its size that of its last insert; or both are the start's. */
  predicate Remembers(indices: seq<Index>, ops: seq<Op>, i: nat, k: string)
    requires |indices| == |ops| + 1 && i <= |ops| && k in indices[i]
  {
    var used, made := LastUse(indices, ops, i, k), LastInsert(ops, i, k);
    && (used.Some? ==> indices[i][k].lastAccess == ops[used.value].now)
    && (used.None? ==> k in indices[0] && indices[i][k].lastAccess == indices[0][k].lastAccess)
    && (made.Some? ==> indices[i][k].size == ops[made.value].size)
    && (made.None? ==> k in indices[0] && indices[i][k].size == indices[0][k].size)
  }

  lemma {:induction false} IndexRemembers(max: nat, indices: seq<Index>, ops: seq<Op>, i: nat, k: string)
    requires IsHistory(max, indices, ops) && i <= |ops| && k in indices[i]
    ensures Remembers(indices, ops, i, k)
  {
    hide Total, KeepsRecent, RemovedLast;
    if i > 0 {
      assert Serves(max, indices[i - 1], ops[i - 1], indices[i]);
      ServedFrom(max, indices[i - 1], ops[i - 1], indices[i], k);
      if k in indices[i - 1] {
        IndexRemembers(max, indices, ops, i - 1, k);
      }
      hide Serves, IsHistory;
    }
  }

  /** Where a listed entry came from: an insert of it, a hit, or the index before. */
  lemma ServedFrom(max: nat, index: Index, op: Op, index': Index, k: string)
    requires Serves(max, index, op, index') && k in index'
    ensures op.Insert? && op.key == k ==> index'[k] == Entry(op.size, op.now)
    ensures op.Get? && op.key == k ==> k in index && index'[k] == Entry(index[k].size, op.now)
    ensures !op.Clear?
    ensures op.key != k ==> k in index && index'[k] == index[k]
  {
    hide Total, RemovedLast;
  }

  /** The time of the last use of a key before `i`, or its time at the start. */
  function LastUsedAt(indices: seq<Index>, ops: seq<Op>, i: nat, k: string): nat
    requires |indices| == |ops| + 1 && i <= |ops|
  {
    var used := LastUse(indices, ops, i, k);
    if used.Some? then ops[used.value].now else if k in indices[0] then indices[0][k].lastAccess else 0
  }

  /** The clock ticks between any two operations, and past the times at the start. */
  predicate ClockTicks(start: Index, ops: seq<Op>) {
    && (forall i, j :: 0 <= i < j < |ops| ==> ops[i].now < ops[j].now)
    && (forall k, i :: k in start && 0 <= i < |ops| ==> start[k].lastAccess < ops[i].now)
  }

  /**
   Least recently used goes first, in terms of the operations alone: what an insert drops was
   last used no later than what it keeps; with a ticking clock, by an earlier operation.
   */
  lemma DroppedWasUsedBefore(max: nat, indices: seq<Index>, ops: seq<Op>, i: nat, v: string, k: string)
    requires IsHistory(max, indices, ops) && i < |ops| && ops[i].Insert?
    requires v in indices[i] && v != ops[i].key && v !in indices[i + 1] && k in indices[i + 1]
    ensures LastUsedAt(indices, ops, i + 1, v) <= LastUsedAt(indices, ops, i + 1, k)
    ensures ClockTicks(indices[0], ops) && LastUse(indices, ops, i + 1, v).Some? ==>
              && LastUse(indices, ops, i + 1, k).Some?
              && LastUse(indices, ops, i + 1, v).value < LastUse(indices, ops, i + 1, k).value
  {
    var made := Inserted(indices[i], ops[i]);
    assert Serves(max, indices[i], ops[i], indices[i + 1]);
    InsertDropsOlder(max, made, indices[i + 1], v, k);
    IndexRemembers(max, indices, ops, i, v);
    IndexRemembers(max, indices, ops, i + 1, k);
    hide Serves, IsHistory;
    assert LastUse(indices, ops, i + 1, v) == LastUse(indices, ops, i, v);
  }

  lemma InsertDropsOlder(max: nat, made: Index, after: Index, v: string, k: string)
    requires Evicts(max, made, after) && v in made && v !in after && k in after
    ensures made[v].lastAccess <= after[k].lastAccess
  {
    hide Total, RemovedLast;
  }

  /** Each insert of the history evicts as it must. */
  ghost predicate EvictionsForced(max: nat, indices: seq<Index>, ops: seq<Op>)
    requires |indices| == |ops| + 1
  {
    forall i :: 0 <= i < |ops| && ops[i].Insert? ==> Forced(max, Inserted(indices[i], ops[i]), indices[i + 1])
  }

  /** The index after the entry is made and before eviction. */
  function Inserted(index: Index, op: Op): Index
    requires op.Insert?
  {
    index[op.key := Entry(op.size, op.now)]
  }

  lemma {:induction false} ForcedHistoriesAgree(max: nat, ops: seq<Op>, a: seq<Index>, b: seq<Index>, i: nat)
    requires IsHistory(max, a, ops) && IsHistory(max, b, ops) && a[0] == b[0]
    requires EvictionsForced(max, a, ops) && i < |a|
    ensures a[i] == b[i]
  {
    if i > 0 {
      ForcedHistoriesAgree(max, ops, a, b, i - 1);
      assert Serves(max, a[i - 1], ops[i - 1], a[i]) && Serves(max, b[i - 1], ops[i - 1], b[i]);
      if ops[i - 1].Insert? {
        ForcedIsUnique(max, Inserted(a[i - 1], ops[i - 1]), a[i], b[i]);
      }
    }
  }

  /** Every sequence of operations can be served. */
  lemma {:induction false} HistoryExists(max: nat, start: Index, ops: seq<Op>) returns (h: seq<Index>)
    ensures IsHistory(max, h, ops) && h[0] == start
    decreases |ops|
  {
    if ops == [] {
      h := [start];
    } else {
      var next := ServedSomehow(max, start, ops[0]);
      var rest := HistoryExists(max, next, ops[1..]);
      h := PrependHistory(max, start, ops, rest);
    }
  }

  lemma ServedSomehow(max: nat, index: Index, op: Op) returns (index': Index)
    ensures Serves(max, index, op, index')
  {
    match op
    case Get(k, now) => index' := if k in index then index[k := index[k].(lastAccess := now)] else index;
    case Insert(_, _, _) =>
      index' := Inserted(index, op);
      if max > 0 && Total(index') > max {
        index' := EvictFurther(max, index', index');
      }
    case Clear(_) => index' := map[];
  }

  lemma PrependHistory(max: nat, start: Index, ops: seq<Op>, rest: seq<Index>) returns (h: seq<Index>)
    requires ops != [] && IsHistory(max, rest, ops[1..]) && Serves(max, start, ops[0], rest[0])
    ensures IsHistory(max, h, ops) && h == [start] + rest
  {
    h := [start] + rest;
    hide Serves;
    forall i | 0 <= i < |ops|
      ensures Serves(max, h[i], ops[i], h[i + 1])
    {
      if i > 0 {
        assert ops[1..][i - 1] == ops[i];
      }
    }
  }

  /** Another outcome of one insert leads to another history. */
  lemma {:induction false} UnforcedHistoryHasAnother(max: nat, ops: seq<Op>, a: seq<Index>, i: nat) returns (b: seq<Index>)
    requires IsHistory(max, a, ops) && i < |ops| && ops[i].Insert?
    requires !Forced(max, Inserted(a[i], ops[i]), a[i + 1])
    ensures IsHistory(max, b, ops) && b[0] == a[0] && b[i + 1] != a[i + 1]
    decreases i
  {
    var rest: seq<Index>;
    assert Serves(max, a[0], ops[0], a[1]);
    hide Forced;
    if i == 0 {
      var c := UnforcedHasAnother(max, Inserted(a[0], ops[0]), a[1]);
      rest := HistoryExists(max, c, ops[1..]);
    } else {
      hide Serves, Evicts;
      TailIsHistory(max, ops, a);
      rest := UnforcedHistoryHasAnother(max, ops[1..], a[1..], i - 1);
    }
    b := PrependHistory(max, a[0], ops, rest);
  }

  lemma TailIsHistory(max: nat, ops: seq<Op>, a: seq<Index>)
    requires IsHistory(max, a, ops) && ops != []
    ensures IsHistory(max, a[1..], ops[1..])
  {
    hide Serves;
    forall i | 0 <= i < |ops[1..]|
      ensures Serves(max, a[1..][i], ops[1..][i], a[1..][i + 1])
    {
      assert Serves(max, a[i + 1], ops[i + 1], a[i + 2]);
    }
  }

  /**
   Two caches that serve the same operations hold the same index throughout, whatever the
   clock and however each walks its hash map, exactly when every eviction of the one is forced.
   */
  lemma CachesAgreeIff(max: nat, ops: seq<Op>, a: seq<Index>)
    requires IsHistory(max, a, ops)
    ensures EvictionsForced(max, a, ops) <==> forall b :: IsHistory(max, b, ops) && b[0] == a[0] ==> b == a
  {
    if EvictionsForced(max, a, ops) {
      forall b | IsHistory(max, b, ops) && b[0] == a[0]
        ensures b == a
      {
        forall i | 0 <= i < |a|
          ensures a[i] == b[i]
        {
          ForcedHistoriesAgree(max, ops, a, b, i);
        }
      }
    } else {
      var i :| 0 <= i < |ops| && ops[i].Insert? && !Forced(max, Inserted(a[i], ops[i]), a[i + 1]);
      hide IsHistory, Forced;
      var b := UnforcedHistoryHasAnother(max, ops, a, i);
    }
  }

  /** What an insert of `k` beside `j`, accessed together, may come to under a cap of ten. */
  lemma TieGoesEitherWay(j: string, k: string, both: Index) returns (kept: Index, dropped: Index)
    requires j != k && both == map[j := Entry(5, 7), k := Entry(6, 7)]
    ensures Evicts(10, both, kept) && k in kept
    ensures Evicts(10, both, dropped) && k !in dropped
  {
    TotalOfTwo(j, both[j], k, both[k]);
    assert NoOlder(both, k) == both;
    var alone := map[k := Entry(6, 7)];
    assert WithLater(both, k) == alone;
    TotalRemove(alone, k);
    assert alone - {k} == map[];
    SurelyKeptIff(10, both, k);
    PossiblyKeptIff(10, both, k);
    hide Evicts, Total, NoOlder, WithLater;
    kept :| Evicts(10, both, kept) && k in kept;
    dropped :| Evicts(10, both, dropped) && k !in dropped;
  }

  /**
   Two files inserted in the same second: the later one fits the cap alone, and yet one walk
   of the map keeps it and another evicts it, so that two caches part.
   */
  lemma TiedInsertsPart(j: string, k: string) returns (ops: seq<Op>, a: seq<Index>, b: seq<Index>)
    requires j != k
    ensures ops == [Op.Insert(j, 5, 7), Op.Insert(k, 6, 7)]
    ensures IsHistory(10, a, ops) && IsHistory(10, b, ops) && a[0] == b[0] == map[]
    ensures k in a[2] && k !in b[2]
  {
    ops := [Op.Insert(j, 5, 7), Op.Insert(k, 6, 7)];
    var none: Index, one: Index := map[], map[j := Entry(5, 7)];
    var both: Index := map[j := Entry(5, 7), k := Entry(6, 7)];
    TotalRemove(one, j);
    assert one - {j} == map[];
    assert Evicts(10, one, one);
    var kept, dropped := TieGoesEitherWay(j, k, both);
    hide Evicts;
    assert Inserted(none, ops[0]) == one && Inserted(one, ops[1]) == both;
    assert Serves(10, none, ops[0], one);
    assert Serves(10, one, ops[1], kept) && Serves(10, one, ops[1], dropped);
    hide Serves, Inserted;
    a, b := [none, one, kept], [none, one, dropped];
  }

  // ---------------------------------------------------------- many callers at once

  /** Where a call to insert stands: its file copied, or its index entry made too. */
  datatype Phase = Copied(key: string, size: nat) | Updated

  datatype Shared = Shared(index: Index, files: map<string, nat>, inserts: map<nat, Phase>, evicted: bool)

  datatype Action = Touch(key: string, now: nat) | Copy(thread: nat, key: string, size: nat)
                  | Update(thread: nat, now: nat) | Evict(thread: nat) | Wipe

  function Sizes(index: Index): map<string, nat> {
    map k | k in index :: index[k].size
  }

  /** One action under the lock, or one file copy outside it. */
  ghost predicate Acts(max: nat, s: Shared, action: Action, s': Shared) {
    match action
    case Touch(k, now) =>
      s' == s.(index := if k in s.index then s.index[k := s.index[k].(lastAccess := now)] else s.index)
    case Copy(t, k, size) =>
      t !in s.inserts && s' == s.(files := s.files[k := size], inserts := s.inserts[t := Copied(k, size)])
    case Update(t, now) =>
      && t in s.inserts && s.inserts[t].Copied?
      && s' == s.(index := s.index[s.inserts[t].key := Entry(s.inserts[t].size, now)], inserts := s.inserts[t := Updated])
    case Evict(t) =>
      && t in s.inserts && s.inserts[t].Updated?
      && Evicts(max, s.index, s'.index)
      && s' == Shared(s'.index, s.files - (s.index.Keys - s'.index.Keys), s.inserts - {t}, true)
    case Wipe => s' == s.(index := map[], files := s.files - s.index.Keys)
  }

  ghost predicate IsRun(max: nat, states: seq<Shared>, actions: seq<Action>) {
    && |states| == |actions| + 1
    && states[0] == Shared(states[0].index, Sizes(states[0].index), map[], false)
    && forall i :: 0 <= i < |actions| ==> Acts(max, states[i], actions[i], states[i + 1])
  }

  lemma TouchKeepsTotal(index: Index, k: string, now: nat)
    requires k in index
    ensures Total(index[k := index[k].(lastAccess := now)]) == Total(index)
  {
    TotalRemove(index, k);
    TotalPut(index, k, index[k].(lastAccess := now));
  }

  /**
   In every interleaving, the total exceeds the cap only while some insert is between its
   index update and its eviction, or before any insert has evicted since the cache was opened.
   */
  lemma {:induction false} OverCapOnlyWhileInserting(max: nat, states: seq<Shared>, actions: seq<Action>, i: nat)
    requires max > 0 && IsRun(max, states, actions) && i < |states|
    ensures Total(states[i].index) > max ==> !states[i].evicted || exists t :: t in states[i].inserts && states[i].inserts[t].Updated?
    ensures states[i].evicted <==> exists j :: 0 <= j < i && actions[j].Evict?
  {
    if i > 0 {
      OverCapOnlyWhileInserting(max, states, actions, i - 1);
      var s, action, s' := states[i - 1], actions[i - 1], states[i];
      assert Acts(max, s, action, s');
      match action
      case Touch(k, now) =>
        if k in s.index { TouchKeepsTotal(s.index, k, now); }
      case Copy(_, _, _) =>
        assert forall t :: t in s.inserts ==> t in s'.inserts && s'.inserts[t] == s.inserts[t];
      case Update(t, _) =>
        assert s'.inserts[t].Updated?;
      case Evict(_) =>
      case Wipe =>
    }
  }

  /** Some insert has copied the key's file and not yet entered it. */
  ghost predicate Awaited(s: Shared, k: string) {
    exists t :: t in s.inserts && s.inserts[t].Copied? && s.inserts[t].key == k
  }

  /** Every key listed, or about to be, has its file. */
  predicate Backed(s: Shared) {
    && (forall k :: k in s.index ==> k in s.files)
    && (forall t :: t in s.inserts && s.inserts[t].Copied? ==> s.inserts[t].key in s.files)
  }

  /** A key is dropped from the index, and its file removed, while an insert has just copied that file. */
  ghost predicate DropsAwaited(s: Shared, s': Shared) {
    exists k :: k in s.index && k !in s'.index && Awaited(s, k)
  }

  lemma BackedUnlessAwaitedDropped(max: nat, s: Shared, action: Action, s': Shared)
    requires Backed(s) && Acts(max, s, action, s')
    ensures Backed(s') <==> !DropsAwaited(s, s')
  {
    hide Total, RemovedLast;
    if DropsAwaited(s, s') {
      var k :| k in s.index && k !in s'.index && Awaited(s, k);
      var t :| t in s.inserts && s.inserts[t].Copied? && s.inserts[t].key == k;
      assert t in s'.inserts && s'.inserts[t] == s.inserts[t];
    } else if action.Evict? || action.Wipe? {
      assert forall t :: t in s'.inserts ==> t in s.inserts && s'.inserts[t] == s.inserts[t];
      forall t | t in s'.inserts && s'.inserts[t].Copied?
        ensures s'.inserts[t].key in s'.files
      {
        assert Awaited(s, s.inserts[t].key);
      }
    }
  }

  /** Over every run, all listed keys keep their files exactly while no awaited key is dropped. */
  lemma {:induction false} FilesKeptIff(max: nat, states: seq<Shared>, actions: seq<Action>, i: nat)
    requires IsRun(max, states, actions) && i < |states|
    ensures (forall j :: 0 <= j <= i ==> Backed(states[j])) <==> (forall j :: 0 <= j < i ==> !DropsAwaited(states[j], states[j + 1]))
  {
    hide Acts, Backed, DropsAwaited;
    if i == 0 {
      StartIsBacked(states[0]);
    } else {
      FilesKeptIff(max, states, actions, i - 1);
      assert Acts(max, states[i - 1], actions[i - 1], states[i]);
      if Backed(states[i - 1]) {
        BackedUnlessAwaitedDropped(max, states[i - 1], actions[i - 1], states[i]);
      }
      assert (forall j :: 0 <= j <= i ==> Backed(states[j])) <==> (forall j :: 0 <= j <= i - 1 ==> Backed(states[j])) && Backed(states[i]);
    }
  }

  lemma StartIsBacked(s: Shared)
    requires s == Shared(s.index, Sizes(s.index), map[], false)
    ensures Backed(s)
  {
  }

  /**
   With two inserts at once the index can come to list a file that is gone: one evicts a
   key, and with it the file, that the other has just copied and not yet entered.
   */
  lemma InsertsCanLoseAFile(j: string, k: string) returns (states: seq<Shared>, actions: seq<Action>)
    requires j != k
    ensures IsRun(10, states, actions)
    ensures var last := states[|states| - 1]; last.inserts == map[] && k in last.index && k !in last.files
  {
    actions := [Copy(0, k, 2), Copy(1, j, 8), Update(1, 1), Evict(1), Update(0, 2), Evict(0)];
    var i0 := map[k := Entry(5, 0)];
    var i1 := map[k := Entry(5, 0), j := Entry(8, 1)];
    var i2 := map[j := Entry(8, 1)];
    var i3 := map[j := Entry(8, 1), k := Entry(2, 2)];
    var s0 := Shared(i0, map[k := 5], map[], false);
    var s1 := Shared(i0, map[k := 2], map[0 := Copied(k, 2)], false);
    var s2 := Shared(i0, map[k := 2, j := 8], map[0 := Copied(k, 2), 1 := Copied(j, 8)], false);
    var s3 := Shared(i1, map[k := 2, j := 8], map[0 := Copied(k, 2), 1 := Updated], false);
    var s4 := Shared(i2, map[j := 8], map[0 := Copied(k, 2)], true);
    var s5 := Shared(i3, map[j := 8], map[0 := Updated], true);
    var s6 := Shared(i3, map[j := 8], map[], true);
    assert Acts(10, s0, actions[0], s1);
    assert Acts(10, s1, actions[1], s2);
    assert Acts(10, s2, actions[2], s3);
    RaceEvictions(j, k, i1, i2, i3);
    DroppingTheFile(j, k, s3, s4);
    hide Evicts;
    assert Acts(10, s4, actions[4], s5);
    assert Acts(10, s5, actions[5], s6);
    hide Acts;
    states := [s0, s1, s2, s3, s4, s5, s6];
  }

  /** The eviction that takes the awaited file with the old entry. */
  lemma DroppingTheFile(j: string, k: string, s: Shared, s': Shared)
    requires j != k && s.index == map[k := Entry(5, 0), j := Entry(8, 1)] && s'.index == map[j := Entry(8, 1)]
    requires s.files == map[k := 2, j := 8] && s.inserts == map[0 := Copied(k, 2), 1 := Updated]
    requires s' == Shared(s'.index, map[j := 8], map[0 := Copied(k, 2)], true)
    requires Evicts(10, s.index, s'.index)
    ensures Acts(10, s, Evict(1), s')
  {
    hide Evicts;
    assert s.index.Keys == {k, j} && s'.index.Keys == {j};
    assert s.index.Keys - s'.index.Keys == {k};
    assert s.inserts - {1} == s'.inserts;
  }

  lemma RaceEvictions(j: string, k: string, i1: Index, i2: Index, i3: Index)
    requires j != k && i1 == map[k := Entry(5, 0), j := Entry(8, 1)] && i2 == map[j := Entry(8, 1)]
    requires i3 == map[j := Entry(8, 1), k := Entry(2, 2)]
    ensures Evicts(10, i1, i2) && Evicts(10, i3, i3)
  {
    TotalOfTwo(k, i1[k], j, i1[j]);
    TotalOfTwo(j, i3[j], k, i3[k]);
    TotalRemove(i2, j);
    assert i2 - {j} == map[];
    assert RemovedLast(10, i1, i2, k);
  }

  lemma TotalOfTwo(a: string, x: Entry, b: string, y: Entry)
    requires a != b
    ensures Total(map[a := x, b := y]) == x.size + y.size
  {
    var both := map[a := x, b := y];
    TotalRemove(both, a);
    assert both - {a} == map[b := y];
    TotalRemove(map[b := y], b);
    assert map[b := y] - {b} == map[];
  }
}
