/** The CUDA-graph refusal (gpu/timeline.go): once a producer reports kernels launched
    from a graph, the serialized tier withdraws "exact" for that process. */
module GraphRefusal {
  import opened Machine
  import opened GpuEvents
  import PendingSamples
  import opened SampleJoin

  const MAX_TRACKED_PROCESSES: nat := 4096

  datatype Tier = Off | Continuous | SerializedTier

  /** A producer's report: so many more executions came from a graph. */
  datatype Report = Report(pid: uint32, count: uint64)

  datatype GraphEvidence = GraphEvidence(byPID: map<uint32, uint64>, allPIDs: bool)

  const NONE := GraphEvidence(map[], false)

  function Noted(ev: GraphEvidence, r: Report): GraphEvidence {
    if r.count == 0 then ev
    else if r.pid == 0 then ev.(allPIDs := true)
    else if r.pid in ev.byPID then ev.(byPID := ev.byPID[r.pid := Add64(ev.byPID[r.pid], r.count)])
    else if |ev.byPID| >= MAX_TRACKED_PROCESSES then ev.(allPIDs := true)
    else ev.(byPID := ev.byPID[r.pid := r.count])
  }

  predicate Refused(tier: Tier, ev: GraphEvidence, pid: uint32) {
    tier == SerializedTier && (ev.allPIDs || (pid in ev.byPID && ev.byPID[pid] > 0))
  }

  class GraphTracker {
    const tier: Tier
    var byPID: map<uint32, uint64>
    var allPIDs: bool
    var total: uint64
    var unscoped: uint64
    var processes: nat
    var trackingCapped: nat

    ghost predicate Valid() reads this { processes == |byPID| }

    ghost function Model(): GraphEvidence reads this { GraphEvidence(byPID, allPIDs) }

    constructor (tier: Tier)
      ensures Valid() && Model() == NONE && this.tier == tier
    {
      this.tier := tier;
      byPID, allPIDs, total, unscoped, processes, trackingCapped := map[], false, 0, 0, 0, 0;
    }

    method EmitGraphExecutions(r: Report)
      requires Valid()
      modifies this
      ensures Valid() && Model() == Noted(old(Model()), r)
      ensures total == Add64(old(total), r.count)
      ensures unscoped == if r.pid == 0 then Add64(old(unscoped), r.count) else old(unscoped)
      ensures trackingCapped == old(trackingCapped)
        + if r.count > 0 && r.pid != 0 && r.pid !in old(byPID) && |old(byPID)| >= MAX_TRACKED_PROCESSES then 1 else 0
    {
      if r.count == 0 {
        return;
      }
      total := Add64(total, r.count);
      if r.pid == 0 {
        unscoped := Add64(unscoped, r.count);
        allPIDs := true;
        return;
      }
      if r.pid !in byPID {
        if |byPID| >= MAX_TRACKED_PROCESSES {
          trackingCapped := trackingCapped + 1;
          allPIDs := true;
          return;
        }
        processes := processes + 1;
      }
      byPID := byPID[r.pid := Add64(if r.pid in byPID then byPID[r.pid] else 0, r.count)];
    }

    method IsRefused(pid: uint32) returns (refused: bool)
      ensures refused == Refused(tier, Model(), pid)
    {
      if tier != SerializedTier {
        return false;
      }
      return allPIDs || (if pid in byPID then byPID[pid] else 0) > 0;
    }
  }

  // ----- Whole runs.

  function Run(rs: seq<Report>): GraphEvidence {
    if rs == [] then NONE else Noted(Run(rs[..|rs| - 1]), rs[|rs| - 1])
  }

  /** Every execution ever reported for a process. */
  function Reported(rs: seq<Report>, pid: uint32): nat {
    if rs == [] then 0
    else Reported(rs[..|rs| - 1], pid) + if rs[|rs| - 1].pid == pid then rs[|rs| - 1].count else 0
  }

  /** The same, as a 64-bit counter accumulates it. */
  function Reported64(rs: seq<Report>, pid: uint32): uint64 {
    if rs == [] then 0
    else
      var before := Reported64(rs[..|rs| - 1], pid);
      if rs[|rs| - 1].pid == pid then Add64(before, rs[|rs| - 1].count) else before
  }

  lemma {:induction false} ReportedWraps(rs: seq<Report>, pid: uint32)
    ensures Reported64(rs, pid) == Reported(rs, pid) % TWO64
  {
    if rs != [] {
      ReportedWraps(rs[..|rs| - 1], pid);
      AddWraps(Reported(rs[..|rs| - 1], pid), rs[|rs| - 1].count);
    }
  }

  /** The processes graph executions were reported for. */
  function Reporting(rs: seq<Report>): (pids: set<uint32>)
    ensures 0 !in pids
  {
    if rs == [] then {}
    else
      var r := rs[|rs| - 1];
      Reporting(rs[..|rs| - 1]) + if r.count > 0 && r.pid != 0 then {r.pid} else {}
  }

  /** The first processes to report are tracked, all of them while there is room. */
  ghost predicate Capped(tracked: set<uint32>, reporting: set<uint32>) {
    && tracked <= reporting
    && |tracked| == Min(|reporting|, MAX_TRACKED_PROCESSES)
    && (|reporting| <= MAX_TRACKED_PROCESSES ==> tracked == reporting)
  }

  ghost predicate Summed(rs: seq<Report>, byPID: map<uint32, uint64>) {
    forall pid :: pid in byPID ==> byPID[pid] == Reported64(rs, pid)
  }

  /** The evidence in terms of the reports alone. */
  ghost predicate Faithful(rs: seq<Report>, ev: GraphEvidence) {
    && Capped(ev.byPID.Keys, Reporting(rs))
    && (ev.allPIDs <==> Reported(rs, 0) > 0 || |Reporting(rs)| > MAX_TRACKED_PROCESSES)
    && Summed(rs, ev.byPID)
  }

  lemma {:induction false} NotReporting(rs: seq<Report>, pid: uint32)
    requires pid != 0
    ensures pid in Reporting(rs) <==> Reported(rs, pid) > 0
  {
    if rs != [] {
      NotReporting(rs[..|rs| - 1], pid);
    }
  }

  lemma TrackOne(tracked: set<uint32>, reporting: set<uint32>, pid: uint32)
    requires Capped(tracked, reporting)
    ensures var more := reporting + {pid};
      if pid in tracked then more == reporting
      else if |tracked| < MAX_TRACKED_PROCESSES then
        Capped(tracked + {pid}, more) && |more| <= MAX_TRACKED_PROCESSES
      else Capped(tracked, more) && |more| > MAX_TRACKED_PROCESSES
  {
    if pid in tracked {
      assert reporting + {pid} == reporting;
    } else if |tracked| >= MAX_TRACKED_PROCESSES {
      SubsetSize(tracked + {pid}, reporting + {pid});
    }
  }

  lemma OthersReported(rs: seq<Report>, r: Report, pid: uint32)
    ensures Reported(rs + [r], pid) == Reported(rs, pid) + if r.pid == pid then r.count else 0
    ensures Reporting(rs + [r]) == Reporting(rs) + if r.count > 0 && r.pid != 0 then {r.pid} else {}
  {
    assert (rs + [r])[..|rs|] == rs;
  }

  lemma FirstReport(rs: seq<Report>, byPID: map<uint32, uint64>, pid: uint32)
    requires Capped(byPID.Keys, Reporting(rs)) && pid != 0 && pid !in byPID && |byPID| < MAX_TRACKED_PROCESSES
    ensures Reported64(rs, pid) == 0
  {
    assert |byPID| == |byPID.Keys|;
    NothingReported(rs, pid);
  }

  lemma {:induction false} NothingReported(rs: seq<Report>, pid: uint32)
    requires pid != 0 && pid !in Reporting(rs)
    ensures Reported64(rs, pid) == 0
  {
    if rs != [] {
      NothingReported(rs[..|rs| - 1], pid);
    }
  }

  lemma NotedSummed(rs: seq<Report>, ev: GraphEvidence, r: Report, pid: uint32)
    requires Capped(ev.byPID.Keys, Reporting(rs)) && Summed(rs, ev.byPID) && pid in Noted(ev, r).byPID
    ensures Noted(ev, r).byPID[pid] == Reported64(rs + [r], pid)
  {
    assert (rs + [r])[..|rs|] == rs;
    if pid !in ev.byPID {
      FirstReport(rs, ev.byPID, pid);
    }
  }

  lemma NotedCapped(rs: seq<Report>, ev: GraphEvidence, r: Report)
    requires Capped(ev.byPID.Keys, Reporting(rs))
    ensures Capped(Noted(ev, r).byPID.Keys, Reporting(rs + [r]))
    ensures Noted(ev, r).allPIDs <==>
      || ev.allPIDs
      || (r.pid == 0 && r.count > 0)
      || (|Reporting(rs)| <= MAX_TRACKED_PROCESSES < |Reporting(rs + [r])|)
      || (r.count > 0 && r.pid !in ev.byPID && |Reporting(rs)| > MAX_TRACKED_PROCESSES)
  {
    OthersReported(rs, r, 0);
    TrackOne(ev.byPID.Keys, Reporting(rs), r.pid);
    assert |ev.byPID| == |ev.byPID.Keys|;
    if r.count > 0 && r.pid != 0 {
      if r.pid in ev.byPID {
        assert Noted(ev, r).byPID.Keys == ev.byPID.Keys;
      } else if |ev.byPID| < MAX_TRACKED_PROCESSES {
        assert Noted(ev, r).byPID.Keys == ev.byPID.Keys + {r.pid};
      }
    }
  }

  lemma NotedFaithful(rs: seq<Report>, ev: GraphEvidence, r: Report)
    requires Faithful(rs, ev)
    ensures Faithful(rs + [r], Noted(ev, r))
  {
    forall pid | pid in Noted(ev, r).byPID ensures Noted(ev, r).byPID[pid] == Reported64(rs + [r], pid) {
      NotedSummed(rs, ev, r, pid);
    }
    NotedCapped(rs, ev, r);
    OthersReported(rs, r, 0);
    SubsetSize(Reporting(rs), Reporting(rs + [r]));
  }

  lemma SubsetSize(a: set<uint32>, b: set<uint32>)
    requires a <= b
    ensures |a| <= |b|
  {
    assert b == a + (b - a);
  }

  lemma {:induction false} RunFaithful(rs: seq<Report>)
    ensures Faithful(rs, Run(rs))
  {
    if rs != [] {
      RunFaithful(rs[..|rs| - 1]);
      NotedFaithful(rs[..|rs| - 1], Run(rs[..|rs| - 1]), rs[|rs| - 1]);
      assert rs == rs[..|rs| - 1] + [rs[|rs| - 1]];
    }
  }

  /** What the reports alone say against a process: one named no process, too many processes
      reported, or its own reports do not sum to a multiple of 2^64. */
  predicate Reason(rs: seq<Report>, pid: uint32) {
    Reported(rs, 0) > 0 || |Reporting(rs)| > 4096 || Reported(rs, pid) % 0x1_0000_0000_0000_0000 != 0
  }

  /** Exactly when a process's executions are refused, over every run of reports. */
  lemma RefusedIff(tier: Tier, rs: seq<Report>, pid: uint32)
    ensures Refused(tier, Run(rs), pid) <==> tier == SerializedTier && Reason(rs, pid)
  {
    RunFaithful(rs);
    TrackedIff(rs, Run(rs), pid);
  }

  lemma TrackedIff(rs: seq<Report>, ev: GraphEvidence, pid: uint32)
    requires Faithful(rs, ev)
    ensures ev.allPIDs || (pid in ev.byPID && ev.byPID[pid] > 0) <==> Reason(rs, pid)
  {
    if !ev.allPIDs {
      assert ev.byPID.Keys == Reporting(rs);
      if pid != 0 {
        NotReporting(rs, pid);
      }
      ReportedWraps(rs, pid);
    }
  }

  lemma {:induction false} ReportedGrows(rs: seq<Report>, more: seq<Report>, pid: uint32)
    ensures Reported(rs, pid) <= Reported(rs + more, pid)
    ensures Reporting(rs) <= Reporting(rs + more)
  {
    if more == [] {
      assert rs + more == rs;
    } else {
      var n := |more| - 1;
      ReportedGrows(rs, more[..n], pid);
      assert (rs + more)[..|rs + more| - 1] == rs + more[..n];
    }
  }

  lemma ReasonStays(rs: seq<Report>, more: seq<Report>, pid: uint32)
    requires Reason(rs, pid) && Reported(rs + more, pid) < TWO64
    ensures Reason(rs + more, pid)
  {
    ReportedGrows(rs, more, pid);
    ReportedGrows(rs, more, 0);
    SubsetSize(Reporting(rs), Reporting(rs + more));
    if Reported(rs, pid) % TWO64 != 0 {
      assert 0 < Reported(rs, pid) <= Reported(rs + more, pid);
    }
  }

  /** The refusal latches: whatever is reported later, a process once refused stays so,
      as long as its own reports do not sum past 64 bits; past that, exactly while there
      is a reason. */
  lemma RefusalLatches(rs: seq<Report>, more: seq<Report>, pid: uint32)
    requires Refused(SerializedTier, Run(rs), pid)
    ensures Refused(SerializedTier, Run(rs + more), pid) <==> Reason(rs + more, pid)
    ensures Reported(rs + more, pid) < TWO64 ==> Refused(SerializedTier, Run(rs + more), pid)
  {
    RefusedIff(SerializedTier, rs, pid);
    RefusedIff(SerializedTier, rs + more, pid);
    if Reported(rs + more, pid) < TWO64 {
      ReasonStays(rs, more, pid);
    }
  }

  /** Two deltas of 2^63 cancel: the counter wraps to zero and the refusal is gone. */
  lemma RefusalCanLapse(pid: uint32)
    requires pid != 0
    ensures var half := Report(pid, 0x8000_0000_0000_0000);
      && Refused(SerializedTier, Run([half]), pid)
      && !Refused(SerializedTier, Run([half, half]), pid)
  {
    var half := Report(pid, 0x8000_0000_0000_0000);
    assert [half][..0] == [] && [half, half][..1] == [half];
    assert Run([half]) == Noted(NONE, half);
    assert Run([half, half]) == Noted(Run([half]), half);
  }

  // ----- What a view says.

  datatype View = View(exec: Exec, samples: seq<PcSample>, pcAttrib: PcAttrib, graphRefused: bool)

  function Labelled(tier: Tier, ev: GraphEvidence, exec: Exec, served: bool, share: seq<PcSample>,
                    attrib: PcAttrib): View {
    var refused := Refused(tier, ev, exec.correlation.pid);
    var claim := if served then Exact else if |share| > 0 then attrib else Unset;
    View(exec, share, if refused && claim == Exact then SampleJoin.GraphRefused else claim, refused)
  }

  /** The label a module-keyed join leaves: none without samples, one of its own three with. */
  ghost predicate Inferred(share: seq<PcSample>, attrib: PcAttrib) {
    && (attrib == Unset ==> share == [])
    && attrib in {Unset, Kernel, KernelAmbiguous, KernelMultiDevice}
  }

  lemma {:induction false} PlacedLabels(ev: Evidence, execs: seq<Exec>, served: seq<bool>, j: Join,
                                        keys: seq<ModuleKey>, i: nat)
    requires |served| == |execs| == |j.shares| == |j.attribs| && i < |execs|
    requires j.attribs[i] == Unset && (!served[i] ==> j.shares[i] == [])
    ensures var r := Placed(ev, execs, served, j, keys);
      if served[i] then r.shares[i] == j.shares[i] && r.attribs[i] == Unset else Inferred(r.shares[i], r.attribs[i])
  {
    if keys != [] {
      var n := |keys| - 1;
      PlacedLabels(ev, execs, served, j, keys[..n], i);
      var key := keys[n];
      if Decide(ev, execs, served, key).Joined? {
        DecideExact(ev, execs, served, key, i);
      }
    }
  }

  lemma {:induction false} UnservedEmpty(q: PendingSamples.Line<Correlation>, execs: seq<Exec>, i: nat)
    requires i < |execs| && !ExactServed(q, execs)[i]
    ensures ExactShares(q, execs)[i] == []
  {
    var n := |execs| - 1;
    if i < n {
      UnservedEmpty(q, execs[..n], i);
    }
  }

  /** In every snapshot after every run of reports, whatever its stores and executions: an
      execution is marked refused exactly when its process is, on the reports alone; served
      by its correlation it says "graph-refused" then and "exact" otherwise, and no other
      execution says either; a label the module join inferred is never touched; and an
      execution holding samples always carries a label. */
  lemma RefusalHonest(tier: Tier, rs: seq<Report>, ev: Evidence, s: Stores, execs: seq<Exec>,
                      keys: seq<ModuleKey>, i: nat)
    requires i < |execs|
    ensures var served := ExactServed(s.byCorrelation, execs)[i];
      var j := Snapshot(ev, s, execs, keys);
      var v := Labelled(tier, Run(rs), execs[i], served, j.shares[i], j.attribs[i]);
      var refused := tier == SerializedTier && Reason(rs, execs[i].correlation.pid);
      && v.exec == execs[i] && v.samples == j.shares[i]
      && (v.graphRefused <==> refused)
      && (v.pcAttrib == SampleJoin.GraphRefused <==> served && refused)
      && (v.pcAttrib == Exact <==> served && !refused)
      && (!served ==> v.pcAttrib == if j.shares[i] == [] then Unset else j.attribs[i])
      && (v.samples != [] ==> v.pcAttrib != Unset)
  {
    RefusedIff(tier, rs, execs[i].correlation.pid);
    var served := ExactServed(s.byCorrelation, execs);
    if !served[i] {
      UnservedEmpty(s.byCorrelation, execs, i);
    }
    PlacedLabels(ev, execs, served, Opening(s.byModule, ExactShares(s.byCorrelation, execs)), keys, i);
  }
}
