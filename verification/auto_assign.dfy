/**
 * Creating a fault (src/context/faults-context.tsx): the least-loaded
 * automatic assignment of `addFault` and the payload of `updateFault`.
 * The store writes themselves are not modelled; the functions here return
 * the document that would be written.
 */
module AutoAssign {
  import opened Wrappers
  import opened FaultTypes
  import opened Seqs

  /** A worker may take a fault of category `t` when `t` is one of the worker's specialties. */
  predicate IsSuitable(w: Worker, t: FaultType)
  {
    t in w.specialty
  }

  /** The workers whose specialty covers `t`, in roster order. */
  function SuitableWorkers(workers: seq<Worker>, t: FaultType): seq<Worker>
  {
    Filter((w: Worker) => IsSuitable(w, t), workers)
  }

  /** A fault counts towards a worker's load when it is assigned to that worker's id and not completed. */
  predicate IsOpenTaskOf(f: Fault, workerId: string)
  {
    f.assignedTo == Some(workerId) && f.status != Completed
  }

  /** The number of open faults assigned to `workerId`. */
  function OpenTaskCount(faults: seq<Fault>, workerId: string): (n: nat)
    ensures n <= |faults|
  {
    |Filter((f: Fault) => IsOpenTaskOf(f, workerId), faults)|
  }

  /** A worker's load is zero exactly when no fault is an open task of the worker's id. */
  lemma OpenTaskCountZero(faults: seq<Fault>, workerId: string)
    ensures OpenTaskCount(faults, workerId) == 0 <==> forall f :: f in faults ==> !IsOpenTaskOf(f, workerId)
  {
    var open := Filter((f: Fault) => IsOpenTaskOf(f, workerId), faults);
    assert open != [] ==> open[0] in open;
  }

  /** The load of a roster entry counts its first fault and the rest separately. */
  lemma OpenTaskCountCons(faults: seq<Fault>, workerId: string)
    requires faults != []
    ensures OpenTaskCount(faults, workerId) ==
      (if IsOpenTaskOf(faults[0], workerId) then 1 else 0) + OpenTaskCount(faults[1..], workerId)
  {
  }

  /** A suitable worker paired with the worker's current load. */
  datatype Candidate = Candidate(worker: Worker, taskCount: nat)

  /** Each worker paired with the worker's load, in the given order. */
  function TaskCounts(workers: seq<Worker>, faults: seq<Fault>): (r: seq<Candidate>)
    ensures |r| == |workers|
    ensures forall i :: 0 <= i < |r| ==>
      r[i].worker == workers[i] && r[i].taskCount == OpenTaskCount(faults, workers[i].id)
  {
    if workers == [] then []
    else [Candidate(workers[0], OpenTaskCount(faults, workers[0].id))] + TaskCounts(workers[1..], faults)
  }

  predicate SortedByCount(cs: seq<Candidate>)
  {
    forall i, j :: 0 <= i < j < |cs| ==> cs[i].taskCount <= cs[j].taskCount
  }

  /**
   * Inserts `c` in front of the first element whose count is not smaller.
   * As `c` comes from earlier in the input than everything in `sorted`, it
   * stays ahead of equal counts: the insertion is stable.
   */
  function InsertByCount(c: Candidate, sorted: seq<Candidate>): (r: seq<Candidate>)
    ensures |r| == |sorted| + 1
    ensures multiset(r) == multiset(sorted) + multiset{c}
  {
    if sorted == [] || c.taskCount <= sorted[0].taskCount then [c] + sorted
    else
      assert sorted == [sorted[0]] + sorted[1..];
      [sorted[0]] + InsertByCount(c, sorted[1..])
  }

  /** Insertion into a sorted sequence keeps it sorted. */
  lemma {:induction false} InsertKeepsSorted(c: Candidate, sorted: seq<Candidate>)
    requires SortedByCount(sorted)
    ensures SortedByCount(InsertByCount(c, sorted))
  {
    if !(sorted == [] || c.taskCount <= sorted[0].taskCount) {
      var rest := sorted[1..];
      var tail := InsertByCount(c, rest);
      InsertKeepsSorted(c, rest);
      assert tail[0] == c || tail[0] == rest[0];
      var r := [sorted[0]] + tail;
      forall i, j | 0 <= i < j < |r| ensures r[i].taskCount <= r[j].taskCount {
        assert r[j] == tail[j - 1];
        if i > 0 {
          assert r[i] == tail[i - 1];
        } else if j > 1 {
          assert tail[0].taskCount <= tail[j - 1].taskCount;
        }
      }
    }
  }

  /**
   * `Array.prototype.sort` with the comparator `a.taskCount - b.taskCount`.
   * The language requires the sort to be stable, so its result is the stable
   * sort of the input, computed here by insertion.
   */
  function SortByCount(cs: seq<Candidate>): (r: seq<Candidate>)
    ensures |r| == |cs|
    ensures multiset(r) == multiset(cs)
    ensures SortedByCount(r)
  {
    if cs == [] then []
    else
      assert cs == [cs[0]] + cs[1..];
      InsertKeepsSorted(cs[0], SortByCount(cs[1..]));
      InsertByCount(cs[0], SortByCount(cs[1..]))
  }

  /** The position of the first candidate with the smallest count. */
  function FirstMinIndex(cs: seq<Candidate>): (k: nat)
    requires |cs| > 0
    ensures k < |cs|
    ensures forall j :: 0 <= j < |cs| ==> cs[k].taskCount <= cs[j].taskCount
    ensures forall j :: 0 <= j < k ==> cs[j].taskCount > cs[k].taskCount
  {
    if |cs| == 1 then 0
    else
      var m := FirstMinIndex(cs[1..]) + 1;
      if cs[0].taskCount <= cs[m].taskCount then 0 else m
  }

  /** The head of the stable sort is the first candidate of minimal count. */
  lemma {:induction false} SortHeadIsFirstMin(cs: seq<Candidate>)
    requires |cs| > 0
    ensures SortByCount(cs)[0] == cs[FirstMinIndex(cs)]
  {
    if |cs| > 1 {
      SortHeadIsFirstMin(cs[1..]);
    }
  }

  /**
   * `addFault`'s choice: filter the roster by specialty, pair each suitable
   * worker with the worker's load, sort by load and take the first. It agrees
   * with the one-pass scan `FirstLeastLoaded` on every roster.
   */
  function ChooseWorker(workers: seq<Worker>, faults: seq<Fault>, t: FaultType): (r: Option<Worker>)
    ensures r == FirstLeastLoaded(workers, faults, t)
  {
    var suitable := SuitableWorkers(workers, t);
    var cs := TaskCounts(suitable, faults);
    PickMatchesScan(workers, faults, t);
    if |suitable| > 0 then
      SortHeadIsFirstMin(cs);
      Some(SortByCount(cs)[0].worker)
    else None
  }

  /**
   * Reference definition of least-loaded selection with ties to the earliest
   * worker, by one scan of the roster: a suitable worker is kept unless a
   * later suitable worker has a strictly smaller load.
   */
  function FirstLeastLoaded(workers: seq<Worker>, faults: seq<Fault>, t: FaultType): (r: Option<Worker>)
    ensures r.None? <==> forall w :: w in workers ==> !IsSuitable(w, t)
    ensures r.Some? ==> r.value in workers && IsSuitable(r.value, t)
    ensures r.Some? ==> forall w :: w in workers && IsSuitable(w, t) ==>
      OpenTaskCount(faults, r.value.id) <= OpenTaskCount(faults, w.id)
  {
    if workers == [] then None
    else
      var rest := FirstLeastLoaded(workers[1..], faults, t);
      assert forall w :: w in workers ==> w == workers[0] || w in workers[1..];
      if !IsSuitable(workers[0], t) then rest
      else if rest.Some? && OpenTaskCount(faults, rest.value.id) < OpenTaskCount(faults, workers[0].id) then rest
      else Some(workers[0])
  }

  /** The first minimal candidate's worker, as an option. */
  function PickOf(cs: seq<Candidate>): Option<Worker>
  {
    if cs == [] then None else Some(cs[FirstMinIndex(cs)].worker)
  }

  lemma {:induction false} PickMatchesScan(workers: seq<Worker>, faults: seq<Fault>, t: FaultType)
    ensures PickOf(TaskCounts(SuitableWorkers(workers, t), faults)) == FirstLeastLoaded(workers, faults, t)
  {
    if workers != [] {
      var w, rest := workers[0], workers[1..];
      PickMatchesScan(rest, faults, t);
      var sr := SuitableWorkers(rest, t);
      var cr := TaskCounts(sr, faults);
      var scan := FirstLeastLoaded(rest, faults, t);
      assert PickOf(cr) == scan;
      SuitableCons(workers, t);
      if IsSuitable(w, t) {
        var c := Candidate(w, OpenTaskCount(faults, w.id));
        TaskCountsCons(w, sr, faults);
        assert TaskCounts(SuitableWorkers(workers, t), faults) == [c] + cr;
        PickCons(c, cr, faults);
        if cr != [] {
          assert scan.Some? && cr[FirstMinIndex(cr)].taskCount == OpenTaskCount(faults, scan.value.id);
        }
        assert FirstLeastLoaded(workers, faults, t) ==
          if scan.Some? && OpenTaskCount(faults, scan.value.id) < OpenTaskCount(faults, w.id) then scan else Some(w);
      } else {
        assert SuitableWorkers(workers, t) == sr;
        assert FirstLeastLoaded(workers, faults, t) == scan;
      }
    }
  }

  lemma SuitableCons(workers: seq<Worker>, t: FaultType)
    requires workers != []
    ensures SuitableWorkers(workers, t) ==
      (if IsSuitable(workers[0], t) then [workers[0]] else []) + SuitableWorkers(workers[1..], t)
  {
  }

  lemma TaskCountsCons(w: Worker, ws: seq<Worker>, faults: seq<Fault>)
    ensures TaskCounts([w] + ws, faults) == [Candidate(w, OpenTaskCount(faults, w.id))] + TaskCounts(ws, faults)
  {
    assert ([w] + ws)[1..] == ws;
  }

  /** Putting a candidate in front keeps the earlier pick unless the newcomer's count is no larger. */
  lemma PickCons(c: Candidate, cs: seq<Candidate>, faults: seq<Fault>)
    ensures PickOf([c] + cs) ==
      if cs != [] && cs[FirstMinIndex(cs)].taskCount < c.taskCount then PickOf(cs) else Some(c.worker)
  {
    if cs != [] {
      assert ([c] + cs)[1..] == cs;
    }
  }

  /** One step of the scan: the head is skipped, loses to a strictly lighter later pick, or is kept. */
  lemma FirstLeastLoadedCons(workers: seq<Worker>, faults: seq<Fault>, t: FaultType)
    requires workers != []
    ensures !IsSuitable(workers[0], t) ==>
      FirstLeastLoaded(workers, faults, t) == FirstLeastLoaded(workers[1..], faults, t)
    ensures var rest := FirstLeastLoaded(workers[1..], faults, t);
      IsSuitable(workers[0], t) && rest.Some? && OpenTaskCount(faults, rest.value.id) < OpenTaskCount(faults, workers[0].id) ==>
        FirstLeastLoaded(workers, faults, t) == rest
    ensures var rest := FirstLeastLoaded(workers[1..], faults, t);
      IsSuitable(workers[0], t) && (rest.None? || OpenTaskCount(faults, rest.value.id) >= OpenTaskCount(faults, workers[0].id)) ==>
        FirstLeastLoaded(workers, faults, t) == Some(workers[0])
  {
  }

  /**
   * Among suitable workers of equal minimal load, the scan keeps the earliest
   * in the roster: `k` is the position of the kept worker.
   */
  lemma {:induction false} FirstLeastLoadedIsEarliest(workers: seq<Worker>, faults: seq<Fault>, t: FaultType) returns (k: nat)
    ensures var r := FirstLeastLoaded(workers, faults, t);
      r.Some? ==> (k < |workers| && workers[k] == r.value &&
        forall j :: 0 <= j < k && IsSuitable(workers[j], t) ==>
          OpenTaskCount(faults, workers[j].id) > OpenTaskCount(faults, r.value.id))
  {
    k := 0;
    if workers != [] {
      var r := FirstLeastLoaded(workers, faults, t);
      var rest := FirstLeastLoaded(workers[1..], faults, t);
      FirstLeastLoadedCons(workers, faults, t);
      var w0 := workers[0];
      if !IsSuitable(w0, t) || (rest.Some? && OpenTaskCount(faults, rest.value.id) < OpenTaskCount(faults, w0.id)) {
        var k' := FirstLeastLoadedIsEarliest(workers[1..], faults, t);
        if rest.Some? {
          k := k' + 1;
          forall j | 0 <= j < k && IsSuitable(workers[j], t)
            ensures OpenTaskCount(faults, workers[j].id) > OpenTaskCount(faults, r.value.id)
          {
            if j > 0 {
              assert workers[j] == workers[1..][j - 1];
            }
          }
        }
      }
    }
  }

  /** With no suitable worker nobody is chosen; otherwise the chosen worker covers the category. */
  lemma ChosenWorkerIsSuitable(workers: seq<Worker>, faults: seq<Fault>, t: FaultType)
    ensures ChooseWorker(workers, faults, t).None? <==> forall w :: w in workers ==> !IsSuitable(w, t)
    ensures var r := ChooseWorker(workers, faults, t);
      r.Some? ==> r.value in workers && t in r.value.specialty
  {
  }

  /** No suitable worker has fewer open faults than the chosen one. */
  lemma ChosenWorkerIsLeastLoaded(workers: seq<Worker>, faults: seq<Fault>, t: FaultType, w: Worker)
    requires w in workers && IsSuitable(w, t)
    ensures var r := ChooseWorker(workers, faults, t);
      r.Some? && OpenTaskCount(faults, r.value.id) <= OpenTaskCount(faults, w.id)
  {
  }

  /** Every suitable worker ahead of the chosen one in the roster carries a strictly larger load. */
  lemma ChosenWorkerIsEarliestAmongTies(workers: seq<Worker>, faults: seq<Fault>, t: FaultType)
    ensures var r := ChooseWorker(workers, faults, t);
      r.Some? ==>
        exists k :: 0 <= k < |workers| && workers[k] == r.value &&
          forall j :: 0 <= j < k && IsSuitable(workers[j], t) ==>
            OpenTaskCount(faults, workers[j].id) > OpenTaskCount(faults, r.value.id)
  {
    var k := FirstLeastLoadedIsEarliest(workers, faults, t);
  }

  /** The document `addFault` hands to the store: the submitted data, timestamps, status and worker id. */
  datatype NewFaultDocument = NewFaultDocument(
    info: NewFaultData,
    createdAt: Timestamp,
    updatedAt: Timestamp,
    status: Status,
    assignedTo: string)

  /** `faults || []`: a list that has not loaded yet counts as empty. */
  function FaultsOrEmpty(faults: Option<seq<Fault>>): seq<Fault>
  {
    if faults.Some? then faults.value else []
  }

  /**
   * `addFault`: nothing is created while the fault collection handle or the
   * roster is missing; otherwise the new fault is assigned to the chosen
   * worker, the first of least load in roster order, or left new with an
   * empty worker id when nobody fits.
   */
  function AddFault(collectionReady: bool, faultData: NewFaultData, workers: Option<seq<Worker>>, faults: Option<seq<Fault>>)
    : (r: Option<NewFaultDocument>)
    ensures r.None? <==> !collectionReady || workers.None?
    ensures r.Some? ==> (r.value.info == faultData &&
      r.value.createdAt == ServerTimestamp && r.value.updatedAt == ServerTimestamp)
    ensures r.Some? ==> (r.value.status == New <==>
      forall w :: w in workers.value ==> faultData.faultType !in w.specialty)
    ensures r.Some? && r.value.status == New ==> r.value.assignedTo == ""
    ensures r.Some? && r.value.status != New ==> (r.value.status == Assigned &&
      exists w :: w in workers.value && w.id == r.value.assignedTo && faultData.faultType in w.specialty &&
        forall v :: v in workers.value && faultData.faultType in v.specialty ==>
          OpenTaskCount(FaultsOrEmpty(faults), w.id) <= OpenTaskCount(FaultsOrEmpty(faults), v.id))
    ensures r.Some? ==> (r.value.status == Assigned <==>
      FirstLeastLoaded(workers.value, FaultsOrEmpty(faults), faultData.faultType).Some?)
    ensures r.Some? && r.value.status == Assigned ==>
      r.value.assignedTo == FirstLeastLoaded(workers.value, FaultsOrEmpty(faults), faultData.faultType).value.id
  {
    if !collectionReady || workers.None? then None
    else
      var known := FaultsOrEmpty(faults);
      var chosen := ChooseWorker(workers.value, known, faultData.faultType);
      Some(NewFaultDocument(
        faultData,
        ServerTimestamp,
        ServerTimestamp,
        if chosen.Some? then Assigned else New,
        if chosen.Some? && chosen.value.id != "" then chosen.value.id else ""))
  }

  /** The fault the store holds once it has given the document the key `id`. */
  function Stored(doc: NewFaultDocument, id: string): Fault
  {
    Fault(id, doc.info, doc.status, doc.createdAt, Some(doc.assignedTo), doc.updatedAt, None, None, None)
  }

  /**
   * Once the created fault is stored, the load of the worker it names grows
   * by one and every other worker's load is unchanged.
   */
  lemma AddedFaultRaisesOnlyAssigneeLoad(faultData: NewFaultData, workers: seq<Worker>, faults: seq<Fault>, id: string, workerId: string)
    ensures var doc := AddFault(true, faultData, Some(workers), Some(faults)).value;
      var after := faults + [Stored(doc, id)];
      OpenTaskCount(after, workerId) ==
        OpenTaskCount(faults, workerId) + (if workerId == doc.assignedTo then 1 else 0)
  {
    var doc := AddFault(true, faultData, Some(workers), Some(faults)).value;
    FilterConcat((f: Fault) => IsOpenTaskOf(f, workerId), faults, [Stored(doc, id)]);
  }

  /** `Partial<Fault>`: each field present or absent. */
  datatype FaultPatch = FaultPatch(
    id: Option<string>,
    reporterName: Option<string>,
    reporterEmail: Option<string>,
    reporterPhone: Option<string>,
    address: Option<string>,
    faultType: Option<FaultType>,
    description: Option<string>,
    status: Option<Status>,
    createdAt: Option<Timestamp>,
    assignedTo: Option<string>,
    updatedAt: Option<Timestamp>,
    workerSignature: Option<string>,
    customerSignature: Option<string>,
    actImageUrl: Option<string>)

  /**
   * `updateFault`: without a store handle nothing is written; otherwise the
   * payload is the caller's fields with `updatedAt` set to the server time.
   */
  function UpdatePayload(storeReady: bool, patch: FaultPatch): (r: Option<FaultPatch>)
    ensures r.Some? <==> storeReady
    ensures r.Some? ==> r.value.updatedAt == Some(ServerTimestamp)
    ensures r.Some? ==> r.value.(updatedAt := None) == patch.(updatedAt := None)
  {
    if storeReady then Some(patch.(updatedAt := Some(ServerTimestamp))) else None
  }
}
