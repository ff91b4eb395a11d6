/**
 * The fault table of the dashboard (src/app/dashboard/components/dashboard-client.tsx):
 * the assign and status handlers that rewrite the fault list, worker-name
 * lookup, the admin and worker views, the row action menu and the status labels.
 * The clock reading `new Date()` is the parameter `now`; toasts are not modelled.
 */
module Dashboard {
  import opened Wrappers
  import opened FaultTypes
  import opened Seqs
  import opened AutoAssign

  /** `handleAssignWorker`: the fault with `faultId` gets the worker and status assigned, whatever its status was. */
  function AssignWorker(faults: seq<Fault>, faultId: string, workerId: string, now: Timestamp): (r: seq<Fault>)
    ensures |r| == |faults|
    ensures forall k :: 0 <= k < |r| && faults[k].id != faultId ==> r[k] == faults[k]
    ensures forall k :: 0 <= k < |r| && faults[k].id == faultId ==>
      r[k].status == Assigned && r[k].assignedTo == Some(workerId) && r[k].updatedAt == now &&
      r[k].(status := faults[k].status, assignedTo := faults[k].assignedTo, updatedAt := faults[k].updatedAt) == faults[k]
  {
    seq(|faults|, k requires 0 <= k < |faults| =>
      if faults[k].id == faultId then faults[k].(assignedTo := Some(workerId), status := Assigned, updatedAt := now)
      else faults[k])
  }

  /** `handleUpdateStatus`: the fault with `faultId` takes the new status; no transition is refused. */
  function UpdateStatus(faults: seq<Fault>, faultId: string, status: Status, now: Timestamp): (r: seq<Fault>)
    ensures |r| == |faults|
    ensures forall k :: 0 <= k < |r| && faults[k].id != faultId ==> r[k] == faults[k]
    ensures forall k :: 0 <= k < |r| && faults[k].id == faultId ==>
      r[k].status == status && r[k].updatedAt == now &&
      r[k].(status := faults[k].status, updatedAt := faults[k].updatedAt) == faults[k]
  {
    seq(|faults|, k requires 0 <= k < |faults| =>
      if faults[k].id == faultId then faults[k].(status := status, updatedAt := now)
      else faults[k])
  }

  /** Every fault has its own key. */
  predicate UniqueIds(faults: seq<Fault>)
  {
    forall i, j :: 0 <= i < j < |faults| ==> faults[i].id != faults[j].id
  }

  /** Handlers given a key that no fault has leave the list as it is. */
  lemma {:induction false} UnknownIdChangesNothing(faults: seq<Fault>, faultId: string, workerId: string, status: Status, now: Timestamp)
    requires forall f :: f in faults ==> f.id != faultId
    ensures AssignWorker(faults, faultId, workerId, now) == faults
    ensures UpdateStatus(faults, faultId, status, now) == faults
  {
    var a := AssignWorker(faults, faultId, workerId, now);
    var u := UpdateStatus(faults, faultId, status, now);
    forall k | 0 <= k < |faults| ensures a[k] == faults[k] && u[k] == faults[k] {
      assert faults[k] in faults;
    }
  }

  function OpenCount(f: Fault, workerId: string): nat
  {
    if IsOpenTaskOf(f, workerId) then 1 else 0
  }

  /** A load split around one position. */
  lemma OpenTaskCountAround(faults: seq<Fault>, k: nat, workerId: string)
    requires k < |faults|
    ensures OpenTaskCount(faults, workerId) ==
      OpenTaskCount(faults[..k], workerId) + OpenCount(faults[k], workerId) + OpenTaskCount(faults[k + 1..], workerId)
  {
    var p := (f: Fault) => IsOpenTaskOf(f, workerId);
    assert faults == faults[..k] + ([faults[k]] + faults[k + 1..]);
    FilterConcat(p, faults[..k], [faults[k]] + faults[k + 1..]);
    FilterConcat(p, [faults[k]], faults[k + 1..]);
  }

  /** When one fault of a list is rewritten, a load moves only by that fault's own contribution. */
  lemma LoadAfterRewrite(faults: seq<Fault>, r: seq<Fault>, k: nat, workerId: string)
    requires |r| == |faults| && k < |faults|
    requires forall j :: 0 <= j < |faults| && j != k ==> r[j] == faults[j]
    ensures OpenTaskCount(r, workerId) + OpenCount(faults[k], workerId) ==
      OpenTaskCount(faults, workerId) + OpenCount(r[k], workerId)
  {
    assert r[..k] == faults[..k];
    assert r[k + 1..] == faults[k + 1..];
    OpenTaskCountAround(faults, k, workerId);
    OpenTaskCountAround(r, k, workerId);
  }

  /**
   * Assigning a fault from the menu adds it to the worker's load, the count
   * automatic assignment minimises, unless it was already an open task of that worker.
   */
  lemma AssignRaisesAssigneeLoad(faults: seq<Fault>, k: nat, workerId: string, now: Timestamp)
    requires UniqueIds(faults) && k < |faults|
    ensures OpenTaskCount(AssignWorker(faults, faults[k].id, workerId, now), workerId) ==
      OpenTaskCount(faults, workerId) + (if IsOpenTaskOf(faults[k], workerId) then 0 else 1)
  {
    LoadAfterRewrite(faults, AssignWorker(faults, faults[k].id, workerId, now), k, workerId);
  }

  /** Completing a fault takes it off its worker's load and changes no other load. */
  lemma CompletingReleasesLoad(faults: seq<Fault>, k: nat, workerId: string, now: Timestamp)
    requires UniqueIds(faults) && k < |faults|
    ensures OpenTaskCount(UpdateStatus(faults, faults[k].id, Completed, now), workerId) ==
      OpenTaskCount(faults, workerId) - (if IsOpenTaskOf(faults[k], workerId) then 1 else 0)
  {
    LoadAfterRewrite(faults, UpdateStatus(faults, faults[k].id, Completed, now), k, workerId);
  }

  /** `Array.prototype.find` on the roster by id. */
  function FindWorker(workers: seq<Worker>, id: string): (r: Option<Worker>)
    ensures r.None? <==> forall w :: w in workers ==> w.id != id
    ensures r.Some? ==> r.value in workers && r.value.id == id
  {
    if workers == [] then None
    else if workers[0].id == id then Some(workers[0])
    else FindWorker(workers[1..], id)
  }

  /** `find` returns the first roster worker with the id: `k` is its position, and no earlier worker has the id. */
  lemma {:induction false} FindWorkerIsFirst(workers: seq<Worker>, id: string) returns (k: nat)
    ensures FindWorker(workers, id).Some? ==>
      k < |workers| && workers[k] == FindWorker(workers, id).value &&
      forall j :: 0 <= j < k ==> workers[j].id != id
  {
    if workers == [] || workers[0].id == id {
      k := 0;
    } else {
      var k' := FindWorkerIsFirst(workers[1..], id);
      k := k' + 1;
    }
  }

  /** Every worker has their own id. */
  predicate UniqueWorkerIds(workers: seq<Worker>)
  {
    forall i, j :: 0 <= i < j < |workers| ==> workers[i].id != workers[j].id
  }

  /** `getWorkerName`: a placeholder for no id, the worker's name, or a placeholder for an unknown id or an empty name. */
  function WorkerName(workers: seq<Worker>, workerId: Option<string>): (r: string)
    ensures r != ""
  {
    if workerId.None? || workerId.value == "" then "Nepriskirta"
    else
      var found := FindWorker(workers, workerId.value);
      if found.Some? && found.value.name != "" then found.value.name else "Nežinomas"
  }

  /**
   * The outcomes of the name lookup: the placeholder for no id, the name of
   * the worker with the id, or "Nežinomas" for an unknown id or a worker
   * without a name. Finding the right worker needs the ids to be unique.
   */
  lemma WorkerNameCases(workers: seq<Worker>, workerId: Option<string>)
    ensures workerId.None? || workerId == Some("") ==> WorkerName(workers, workerId) == "Nepriskirta"
    ensures UniqueWorkerIds(workers) ==>
      forall w :: w in workers && workerId == Some(w.id) && w.id != "" && w.name != "" ==>
        WorkerName(workers, workerId) == w.name
    ensures UniqueWorkerIds(workers) ==>
      forall w :: w in workers && workerId == Some(w.id) && w.id != "" && w.name == "" ==>
        WorkerName(workers, workerId) == "Nežinomas"
    ensures workerId.Some? && workerId.value != "" && (forall w :: w in workers ==> w.id != workerId.value) ==>
      WorkerName(workers, workerId) == "Nežinomas"
  {
    if workerId.Some? && workerId.value != "" && UniqueWorkerIds(workers) {
      var found := FindWorker(workers, workerId.value);
      forall w | w in workers && workerId == Some(w.id)
        ensures found == Some(w)
      {
        var i :| 0 <= i < |workers| && workers[i] == found.value;
        var j :| 0 <= j < |workers| && workers[j] == w;
        assert i == j;
      }
    }
  }

  /** A fault that automatic assignment left new shows the placeholder for no worker. */
  lemma UnassignedFaultShowsPlaceholder(data: NewFaultData, workers: seq<Worker>, faults: seq<Fault>, id: string)
    requires forall w :: w in workers ==> data.faultType !in w.specialty
    ensures WorkerName(workers, Stored(AddFault(true, data, Some(workers), Some(faults)).value, id).assignedTo) == "Nepriskirta"
  {
  }

  /** Which page shows the table. */
  datatype View = AdminView | WorkerView

  /** The admin's status tab. */
  datatype StatusFilter = All | Only(status: Status)

  /** Whether a fault is a row of the table. */
  predicate Shown(view: View, filter: StatusFilter, workerId: Option<string>, f: Fault)
  {
    match view
    case AdminView => filter.All? || f.status == filter.status
    case WorkerView => f.assignedTo == workerId && f.status != Completed
  }

  /**
   * `displayedFaults`: the admin sees every fault or those of the chosen
   * status; a worker sees the open faults assigned to the worker's id. Rows keep list order.
   */
  function DisplayedFaults(view: View, filter: StatusFilter, workerId: Option<string>, faults: seq<Fault>): (r: seq<Fault>)
    ensures view == AdminView && filter == All ==> r == faults
    ensures view == AdminView && filter.Only? ==>
      forall f :: f in r <==> f in faults && f.status == filter.status
    ensures view == WorkerView ==>
      forall f :: f in r <==> f in faults && f.assignedTo == workerId && f.status != Completed
  {
    var p := (f: Fault) => Shown(view, filter, workerId, f);
    if view == AdminView && filter == All then FilterKeepsAll(p, faults); Filter(p, faults)
    else Filter(p, faults)
  }

  /** The rows of a concatenated list are the rows of each part, in order, each as often as it occurs. */
  lemma DisplayedFaultsKeepOrder(view: View, filter: StatusFilter, workerId: Option<string>, a: seq<Fault>, b: seq<Fault>, f: Fault)
    ensures DisplayedFaults(view, filter, workerId, a + b) ==
      DisplayedFaults(view, filter, workerId, a) + DisplayedFaults(view, filter, workerId, b)
    ensures multiset(DisplayedFaults(view, filter, workerId, a))[f] ==
      if Shown(view, filter, workerId, f) then multiset(a)[f] else 0
  {
    var p := (g: Fault) => Shown(view, filter, workerId, g);
    FilterConcat(p, a, b);
    FilterMultiplicity(p, a, f);
  }

  /** A worker's task list has exactly as many rows as the load automatic assignment counts for that worker. */
  lemma WorkerViewSizeIsLoad(filter: StatusFilter, workerId: string, faults: seq<Fault>)
    ensures |DisplayedFaults(WorkerView, filter, Some(workerId), faults)| == OpenTaskCount(faults, workerId)
  {
    FilterCongruent((f: Fault) => Shown(WorkerView, filter, Some(workerId), f),
                    (f: Fault) => IsOpenTaskOf(f, workerId), faults);
  }

  /** After an assignment, the fault is in the new worker's task list. */
  lemma AssignedFaultInWorkerView(faults: seq<Fault>, k: nat, workerId: string, now: Timestamp, filter: StatusFilter)
    requires k < |faults|
    ensures var r := AssignWorker(faults, faults[k].id, workerId, now);
      r[k] in DisplayedFaults(WorkerView, filter, Some(workerId), r)
  {
    var r := AssignWorker(faults, faults[k].id, workerId, now);
    assert r[k] in r;
  }

  /** After completion, no worker's task list holds a fault with that key. */
  lemma CompletedFaultLeavesWorkerViews(faults: seq<Fault>, faultId: string, now: Timestamp, filter: StatusFilter, workerId: Option<string>)
    ensures forall f :: f in DisplayedFaults(WorkerView, filter, workerId, UpdateStatus(faults, faultId, Completed, now)) ==>
      f.id != faultId
  {
    var r := UpdateStatus(faults, faultId, Completed, now);
    forall f | f in r && f.id == faultId ensures f.status == Completed {
      var k :| 0 <= k < |r| && r[k] == f;
    }
  }

  /** An entry of a row's action menu. */
  datatype MenuAction = ViewDetails | AssignTo(workerId: string) | SetStatus(target: Status)

  /**
   * The row menu: details always; for the admin, one entry per roster worker;
   * for a worker and a fault that is not completed, the two status changes.
   */
  function MenuActions(view: View, fault: Fault, workers: seq<Worker>): (r: seq<MenuAction>)
    ensures ViewDetails in r
    ensures forall s :: SetStatus(s) in r <==>
      view == WorkerView && fault.status != Completed && (s == InProgress || s == Completed)
    ensures forall id :: AssignTo(id) in r <==> view == AdminView && exists w :: w in workers && w.id == id
  {
    var assign := if view == AdminView then seq(|workers|, i requires 0 <= i < |workers| => AssignTo(workers[i].id)) else [];
    var status := if view == WorkerView && fault.status != Completed then [SetStatus(InProgress), SetStatus(Completed)] else [];
    assert forall id :: AssignTo(id) in assign <==> view == AdminView && exists w :: w in workers && w.id == id by {
      forall id | view == AdminView && (exists w :: w in workers && w.id == id)
        ensures AssignTo(id) in assign
      {
        var w :| w in workers && w.id == id;
        var i :| 0 <= i < |workers| && workers[i] == w;
        assert assign[i] == AssignTo(id);
      }
    }
    [ViewDetails] + assign + status
  }

  /** What choosing a menu entry does to the fault list. */
  function ApplyMenuAction(faults: seq<Fault>, fault: Fault, action: MenuAction, now: Timestamp): seq<Fault>
  {
    match action
    case ViewDetails => faults
    case AssignTo(workerId) => AssignWorker(faults, fault.id, workerId, now)
    case SetStatus(s) => UpdateStatus(faults, fault.id, s, now)
  }

  /**
   * From the worker's table nothing changes a completed fault, while from the
   * admin's table assigning one makes it an open task again.
   */
  lemma CompletedFaultMenus(faults: seq<Fault>, k: nat, workers: seq<Worker>, now: Timestamp)
    requires UniqueIds(faults) && k < |faults| && faults[k].status == Completed
    ensures forall a :: a in MenuActions(WorkerView, faults[k], workers) ==>
      ApplyMenuAction(faults, faults[k], a, now) == faults
    ensures forall w :: w in workers ==>
      AssignTo(w.id) in MenuActions(AdminView, faults[k], workers) &&
      IsOpenTaskOf(ApplyMenuAction(faults, faults[k], AssignTo(w.id), now)[k], w.id)
  {
    var menu := MenuActions(WorkerView, faults[k], workers);
    forall a | a in menu ensures ApplyMenuAction(faults, faults[k], a, now) == faults {
      assert !a.AssignTo? && !a.SetStatus?;
    }
  }

  /** The status badge label. */
  function StatusLabel(s: Status): string
  {
    match s
    case New => "Naujas"
    case Assigned => "Priskirtas"
    case InProgress => "Vykdomas"
    case Completed => "Užbaigtas"
  }

  /** Different statuses carry different labels. */
  lemma StatusLabelsDistinct(s: Status, t: Status)
    requires s != t
    ensures StatusLabel(s) != StatusLabel(t)
  {
    assert StatusLabel(s)[0] != StatusLabel(t)[0];
  }
}
