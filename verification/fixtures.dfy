/**
 * The sample roster and fault list of src/lib/data.ts, and what the
 * automatic assignment does with them. Worker 3's "renovation" specialty and
 * fault 3's "renovation" category are not FaultType values; both are given
 * the `General` category here. The fixtures keep only what automatic
 * assignment reads: each fault's id, category, status and assignee. Reporter
 * fields are left empty, the signatures of FAULT-003 are dropped, and the
 * missing timestamps are given `At(0)`.
 */
module Fixtures {
  import opened Wrappers
  import opened FaultTypes
  import opened AutoAssign

  const Worker1 := Worker("worker-1", "Jonas Jonaitis", "jonas@zarasubustas.lt", "password123", [Electricity, General])
  const Worker2 := Worker("worker-2", "Petras Petraitis", "petras@zarasubustas.lt", "password123", [Plumbing])
  const Worker3 := Worker("worker-3", "Ona Onaitė", "ona@zarasubustas.lt", "password123", [General])
  const SampleWorkers := [Worker1, Worker2, Worker3]

  function SampleFault(id: string, kind: FaultType, status: Status, assignedTo: Option<string>): Fault
  {
    Fault(id, NewFaultData("", "", "", "", kind, ""), status, At(0), assignedTo, At(0), None, None, None)
  }

  const SampleFaults := [
    SampleFault("FAULT-001", Plumbing, Assigned, Some("worker-2")),
    SampleFault("FAULT-002", Electricity, New, None),
    SampleFault("FAULT-003", General, Completed, Some("worker-3")),
    SampleFault("FAULT-004", General, InProgress, Some("worker-1")),
    SampleFault("FAULT-005", Plumbing, New, None)
  ]

  /** A plumbing fault goes to the only plumber, whatever the plumber's load. */
  lemma SamplePlumbingGoesToWorker2()
    ensures ChooseWorker(SampleWorkers, SampleFaults, Plumbing) == Some(Worker2)
  {
    assert IsSuitable(Worker2, Plumbing);
    forall w | w in SampleWorkers && IsSuitable(w, Plumbing)
      ensures w == Worker2
    {
    }
  }

  /**
   * A general fault goes to worker 3: worker 1 holds the in-progress fault 4,
   * while worker 3's only fault is completed and does not count.
   */
  lemma SampleGeneralGoesToWorker3()
    ensures ChooseWorker(SampleWorkers, SampleFaults, General) == Some(Worker3)
  {
    SampleScanPicksWorker3();
  }

  lemma SampleScanPicksWorker3()
    ensures FirstLeastLoaded(SampleWorkers, SampleFaults, General) == Some(Worker3)
  {
    ScanOfLastTwoWorkers();
    LoadsOfSampleFaults();
    assert SampleWorkers[1..] == [Worker2, Worker3];
  }

  lemma ScanOfLastTwoWorkers()
    ensures FirstLeastLoaded([Worker2, Worker3], SampleFaults, General) == Some(Worker3)
  {
    var tail := [Worker2, Worker3];
    assert tail[1..] == [Worker3] && [Worker3][1..] == [];
    FirstLeastLoadedCons([Worker3], SampleFaults, General);
    FirstLeastLoadedCons(tail, SampleFaults, General);
  }

  lemma LoadsOfSampleFaults()
    ensures OpenTaskCount(SampleFaults, "worker-1") == 1
    ensures OpenTaskCount(SampleFaults, "worker-3") == 0
  {
    LoadOfWorker1();
    LoadOfWorker3();
  }

  lemma LoadOfWorker1()
    ensures OpenTaskCount(SampleFaults, "worker-1") == 1
  {
    var fs := SampleFaults;
    assert "worker-2" != "worker-1" by {
      assert "worker-2"[7] != "worker-1"[7];
    }
    assert !IsOpenTaskOf(fs[0], "worker-1") && !IsOpenTaskOf(fs[1], "worker-1") && !IsOpenTaskOf(fs[2], "worker-1");
    assert IsOpenTaskOf(fs[3], "worker-1") && !IsOpenTaskOf(fs[4], "worker-1");
    assert fs[4..][1..] == fs[5..] && fs[3..][1..] == fs[4..] && fs[2..][1..] == fs[3..] && fs[1..][1..] == fs[2..];
    OpenTaskCountCons(fs[4..], "worker-1");
    OpenTaskCountCons(fs[3..], "worker-1");
    OpenTaskCountCons(fs[2..], "worker-1");
    OpenTaskCountCons(fs[1..], "worker-1");
    OpenTaskCountCons(fs, "worker-1");
  }

  lemma LoadOfWorker3()
    ensures OpenTaskCount(SampleFaults, "worker-3") == 0
  {
    var fs := SampleFaults;
    assert "worker-2" != "worker-3" && "worker-1" != "worker-3" by {
      assert "worker-2"[7] != "worker-3"[7] && "worker-1"[7] != "worker-3"[7];
    }
    assert fs[4..][1..] == fs[5..] && fs[3..][1..] == fs[4..] && fs[2..][1..] == fs[3..] && fs[1..][1..] == fs[2..];
    OpenTaskCountCons(fs[4..], "worker-3");
    OpenTaskCountCons(fs[3..], "worker-3");
    OpenTaskCountCons(fs[2..], "worker-3");
    OpenTaskCountCons(fs[1..], "worker-3");
    OpenTaskCountCons(fs, "worker-3");
  }

  /** A heating fault finds nobody: the new fault stays new with an empty worker id. */
  lemma SampleHeatingStaysNew(data: NewFaultData)
    requires data.faultType == Heating
    ensures AddFault(true, data, Some(SampleWorkers), Some(SampleFaults)) ==
      Some(AutoAssign.NewFaultDocument(data, ServerTimestamp, ServerTimestamp, New, ""))
  {
    forall w | w in SampleWorkers ensures !IsSuitable(w, Heating) {
    }
  }
}
