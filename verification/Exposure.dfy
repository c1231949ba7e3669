/** Exactly when the window store is wrong, whatever reached it: records lost, flagged or
    not, overtaking each other, repeated, refused or evicted (gpu/serialization.go). */
module Exposure {
  import opened Machine
  import opened Serialization
  import opened Disclosure
  import opened DisclosureLimits

  /** Windows that are all records of the true history. */
  ghost predicate OfHistory(h: seq<Burst>, s: WindowSet) {
    h != [] && s.haveCoverage && Ordered(s.wins) && AllKnown(h, |h| - 1, s.wins)
  }

  /** A serialized burst the store does not hold and yet speaks for: coverage began before
      it was over, a later window is held, and no held window stands open before it. */
  ghost predicate Exposed(h: seq<Burst>, s: WindowSet, j: nat) {
    && j < |h| && h[j].serialized && !HoldsStart(s.wins, h[j].start)
    && s.coverageStartNs <= h[j].end
    && (exists i :: 0 <= i < |s.wins| && h[j].start < s.wins[i].startNs)
    && (forall i :: 0 <= i < |s.wins| && s.wins[i].Open() ==> h[j].start < s.wins[i].startNs)
  }

  /** The store calls an interval "not serialized" that a serialized burst meets. */
  ghost predicate Wrong(h: seq<Burst>, s: WindowSet, from: uint64, to: uint64, j: nat) {
    Answer(s, from, to) == NotSerialized && j < |h| && h[j].serialized && h[j].Intersects(from, to)
  }

  // ----- One state.

  /** Coverage that reaches a burst not held rests on a later window. */
  lemma LaterWitness(h: seq<Burst>, s: WindowSet, j: nat) returns (k: nat)
    requires Truthful(h) && OfHistory(h, s) && j < |h| && h[j].serialized && !HoldsStart(s.wins, h[j].start)
    requires CoverageEnd(s).Some? && h[j].start <= CoverageEnd(s).value
    ensures k < |s.wins| && h[j].start < s.wins[k].startNs && h[j].closes
  {
    k := CoverageWitness(s);
    var b := BurstOf(h, |h| - 1, s.wins[k]);
    StartOrder(h, b, j);
    StartOrder(h, j, b);
    assert b < j ==> !Overpromises(h, b, j);
  }

  lemma WrongExposes(h: seq<Burst>, s: WindowSet, from: uint64, to: uint64, j: nat)
    requires Truthful(h) && OfHistory(h, s) && Wrong(h, s, from, to, j)
    ensures Exposed(h, s, j)
  {
    AnswerIff(s, from, to);
    if HoldsStart(s.wins, h[j].start) {
      HeldOutside(h, s, |h| - 1, j, from, to);
    } else {
      var k := LaterWitness(h, s, j);
      forall i | 0 <= i < |s.wins| && s.wins[i].Open() ensures h[j].start < s.wins[i].startNs {
        assert !s.wins[i].Intersects(from, to);
      }
    }
  }

  /** No held window meets an exposed burst. */
  lemma ExposedApart(h: seq<Burst>, s: WindowSet, j: nat, i: nat)
    requires Orderly(h) && OfHistory(h, s) && Exposed(h, s, j) && i < |s.wins|
    ensures if s.wins[i].startNs < h[j].start then !s.wins[i].Open() && s.wins[i].endNs < h[j].start
      else h[j].closes && h[j].end < s.wins[i].startNs
    ensures s.wins[i].Open() || s.wins[i].startNs <= s.wins[i].Reach()
  {
    assert s.wins[i] in s.wins;
    var b := BurstOf(h, |h| - 1, s.wins[i]);
    StartOrder(h, b, j);
    StartOrder(h, j, b);
  }

  lemma ExposedWrong(h: seq<Burst>, s: WindowSet, j: nat)
    requires Orderly(h) && OfHistory(h, s) && Exposed(h, s, j)
    ensures var t := Max(s.coverageStartNs, h[j].start); Wrong(h, s, t, t, j)
  {
    var t := Max(s.coverageStartNs, h[j].start);
    var k :| 0 <= k < |s.wins| && h[j].start < s.wins[k].startNs;
    ExposedApart(h, s, j, k);
    StartsBeforeEnd(h, j);
    forall i | 0 <= i < |s.wins| ensures !s.wins[i].Intersects(t, t) {
      ExposedApart(h, s, j, i);
    }
    ReachesExposed(h, s, j, k);
    AnswerIff(s, t, t);
  }

  lemma StartsBeforeEnd(h: seq<Burst>, j: nat)
    requires Orderly(h) && j < |h| && h[j].closes
    ensures h[j].start <= h[j].end
  {
  }

  lemma ReachesExposed(h: seq<Burst>, s: WindowSet, j: nat, k: nat)
    requires Orderly(h) && OfHistory(h, s) && Exposed(h, s, j) && k < |s.wins| && h[j].start < s.wins[k].startNs
    ensures CoverageEnd(s).Some? && h[j].end < CoverageEnd(s).value
  {
    CoverageEndExact(s);
    ExposedApart(h, s, j, k);
    assert Eligible(s.wins, s.coverageStartNs, k);
    if i :| Eligible(s.wins, s.coverageStartNs, i) && s.wins[i].Open() && CoverageEnd(s).value == s.wins[i].startNs {
      ExposedApart(h, s, j, i);
    }
  }

  /** Exactly when a state is wrong about anything, and about what. */
  lemma WrongIff(h: seq<Burst>, s: WindowSet, j: nat)
    requires Truthful(h) && OfHistory(h, s)
    ensures (exists from, to :: Wrong(h, s, from, to, j)) <==> Exposed(h, s, j)
  {
    forall from, to | Wrong(h, s, from, to, j) ensures Exposed(h, s, j) {
      WrongExposes(h, s, from, to, j);
    }
    if Exposed(h, s, j) {
      ExposedWrong(h, s, j);
    }
  }

  // ----- Every run, in any order of arrival.

  lemma RecordStands(h: seq<Burst>, d: Delivery, pid: uint32)
    requires Orderly(h) && Sent(h, d)
    ensures Known(h, |h| - 1, RecordOf(h, d, pid).ToWindow()) && !RecordOf(h, d, pid).Inverted()
  {
    assert Stands(h, RecordOf(h, d, pid).ToWindow(), d.Burst());
  }

  lemma AddOfHistory(h: seq<Burst>, s: WindowSet, d: Delivery, pid: uint32, maxPerPID: nat)
    requires Orderly(h) && Sent(h, d) && maxPerPID >= 1 && |s.wins| <= maxPerPID
    requires s == EMPTY_SET || OfHistory(h, s)
    ensures OfHistory(h, AddToSet(s, RecordOf(h, d, pid), maxPerPID))
    ensures |AddToSet(s, RecordOf(h, d, pid), maxPerPID).wins| <= maxPerPID
  {
    var r := RecordOf(h, d, pid);
    RecordStands(h, d, pid);
    AddKeepsOrder(s, r, maxPerPID);
    if !HoldsStart(s.wins, r.startNs) {
      InsertKeepsOrder(s.wins, r.ToWindow());
    }
  }

  lemma RecordsNext(h: seq<Burst>, ds: seq<Delivery>, pid: uint32)
    requires AllSent(h, ds) && ds != []
    ensures var n := |ds| - 1;
      AllSent(h, ds[..n]) && Records(h, ds, pid)[..n] == Records(h, ds[..n], pid)
  {
  }

  lemma {:induction false} AloneOfHistory(h: seq<Burst>, ds: seq<Delivery>, pid: uint32, maxPerPID: nat)
    requires Orderly(h) && AllSent(h, ds) && maxPerPID >= 1
    ensures var s := Alone(Records(h, ds, pid), maxPerPID);
      && (if ds == [] then s == EMPTY_SET else OfHistory(h, s))
      && |s.wins| <= maxPerPID
  {
    if ds != [] {
      var n := |ds| - 1;
      RecordsNext(h, ds, pid);
      AloneOfHistory(h, ds[..n], pid, maxPerPID);
      AddOfHistory(h, Alone(Records(h, ds[..n], pid), maxPerPID), ds[n], pid, maxPerPID);
    }
  }

  /** Among other processes, one the store admitted is kept as if it were alone; one it
      did not admit at its first record it never admits. */
  lemma {:induction false} RunAlone(rs: seq<Record>, pid: uint32, maxPerPID: nat, maxPIDs: nat)
    requires maxPerPID >= 1 && forall r :: r in OfProcess(rs, pid) ==> !r.Inverted()
    ensures var run, own := Run(rs, maxPerPID, maxPIDs), OfProcess(rs, pid);
      && (pid in run ==> own != [] && run[pid] == Alone(own, maxPerPID))
      && (pid !in run && own != [] ==> |run| >= maxPIDs)
  {
    if rs != [] {
      var n := |rs| - 1;
      var own := OfProcess(rs[..n], pid);
      assert forall r :: r in own ==> r in OfProcess(rs, pid);
      RunAlone(rs[..n], pid, maxPerPID, maxPIDs);
      RunGrows(Run(rs[..n], maxPerPID, maxPIDs), rs[n], maxPerPID, maxPIDs);
      if rs[n].pid == pid {
        assert rs[n] in OfProcess(rs, pid);
        AloneNext(own, rs[n], maxPerPID);
        assert own == [] ==> Alone(own, maxPerPID) == EMPTY_SET;
      }
    }
  }

  /** The whole store calls an interval "not serialized" that a serialized burst meets. */
  ghost predicate WrongFor(h: seq<Burst>, run: Histories, pid: uint32, from: uint64, to: uint64, j: nat) {
    Classify(run, pid, from, to) == NotSerialized && j < |h| && h[j].serialized && h[j].Intersects(from, to)
  }

  lemma WrongForIff(h: seq<Burst>, run: Histories, pid: uint32, j: nat)
    requires Truthful(h) && (pid in run ==> OfHistory(h, run[pid]))
    ensures (exists from, to :: WrongFor(h, run, pid, from, to, j)) <==> pid in run && Exposed(h, run[pid], j)
  {
    if pid in run {
      WrongIff(h, run[pid], j);
      forall from, to ensures WrongFor(h, run, pid, from, to, j) <==> Wrong(h, run[pid], from, to, j) {
        assert Classify(run, pid, from, to) == Answer(run[pid], from, to);
      }
    }
  }

  lemma SentAlone(h: seq<Burst>, ds: seq<Delivery>, pid: uint32, rs: seq<Record>, maxPerPID: nat, maxPIDs: nat)
    requires Orderly(h) && AllSent(h, ds) && maxPerPID >= 1 && OfProcess(rs, pid) == Records(h, ds, pid)
    ensures var run := Run(rs, maxPerPID, maxPIDs);
      && (pid in run ==> ds != [] && run[pid] == Alone(Records(h, ds, pid), maxPerPID) && OfHistory(h, run[pid]))
      && (pid !in run && ds != [] ==> |run| >= maxPIDs)
  {
    forall r | r in OfProcess(rs, pid) ensures !r.Inverted() {
      var k :| 0 <= k < |ds| && r == RecordOf(h, ds[k], pid);
      RecordStands(h, ds[k], pid);
    }
    RunAlone(rs, pid, maxPerPID, maxPIDs);
    AloneOfHistory(h, ds, pid, maxPerPID);
  }

  /** Exactly when a run is wrong about a burst: any of the records sent, in any order, any
      number of times, flagged in any way, in a store of any size, whatever other processes
      send. It is wrong if and only if the history it holds is exposed there. */
  lemma AnyOrderIff(h: seq<Burst>, ds: seq<Delivery>, pid: uint32, rs: seq<Record>,
                    maxPerPID: nat, maxPIDs: nat, j: nat)
    requires Truthful(h) && AllSent(h, ds) && maxPerPID >= 1 && OfProcess(rs, pid) == Records(h, ds, pid)
    ensures var run := Run(rs, maxPerPID, maxPIDs);
      (exists from, to :: WrongFor(h, run, pid, from, to, j)) <==> pid in run && Exposed(h, run[pid], j)
  {
    SentAlone(h, ds, pid, rs, maxPerPID, maxPIDs);
    WrongForIff(h, Run(rs, maxPerPID, maxPIDs), pid, j);
  }

  // ----- The same in terms of the arrivals, while nothing is evicted.

  ghost predicate Delivered(ds: seq<Delivery>, b: nat) {
    exists k :: 0 <= k < |ds| && ds[k].Burst() == b
  }

  /** Some record of burst b that reads as closed arrived. */
  ghost predicate DeliveredClosed(h: seq<Burst>, ds: seq<Delivery>, b: nat) {
    exists k :: 0 <= k < |ds| && ds[k].Burst() == b && ReadsClosed(h, ds[k].index)
  }

  /** The burst coverage restarted at last: the latest flagged arrival's, or the first's. */
  function Restart(ds: seq<Delivery>): nat
    requires ds != []
  {
    var last := ds[|ds| - 1];
    if |ds| == 1 || last.lost > 0 then last.Burst() else Restart(ds[..|ds| - 1])
  }

  /** A serialized burst of which nothing arrived, later than the last restart and earlier
      than something that did arrive, with no burst before it known only to have opened. */
  ghost predicate Missed(h: seq<Burst>, ds: seq<Delivery>, j: nat) {
    && ds != [] && j < |h| && h[j].serialized && !Delivered(ds, j)
    && Restart(ds) < j
    && (exists b :: j < b && Delivered(ds, b))
    && (forall b :: 0 <= b < j && Delivered(ds, b) ==> DeliveredClosed(h, ds, b))
  }

  /** What a history with room for everything holds after any arrivals. */
  ghost predicate Mirrors(h: seq<Burst>, ds: seq<Delivery>, s: WindowSet) {
    && (ds != [] ==> Restart(ds) < |h| && s.coverageStartNs == h[Restart(ds)].start)
    && (forall b :: 0 <= b < |h| ==> (HoldsStart(s.wins, h[b].start) <==> Delivered(ds, b)))
    && (forall b :: 0 <= b < |h| ==>
          (HoldsOpen(s.wins, h[b].start) <==> Delivered(ds, b) && !DeliveredClosed(h, ds, b)))
  }

  lemma SupersedeReads(ws: seq<Window>, nw: Window, t: uint64)
    ensures HoldsStart(Supersede(ws, nw), t) <==> HoldsStart(ws, t)
    ensures HoldsOpen(Supersede(ws, nw), t) <==> HoldsOpen(ws, t) && (t == nw.startNs ==> nw.Open())
  {
    var r := Supersede(ws, nw);
    assert forall i :: 0 <= i < |ws| ==> r[i].startNs == ws[i].startNs;
    if HoldsOpen(ws, t) && (t == nw.startNs ==> nw.Open()) {
      var i :| 0 <= i < |ws| && ws[i].startNs == t && ws[i].Open();
      assert r[i] == ws[i];
    }
  }

  lemma InsertReads(ws: seq<Window>, nw: Window, t: uint64)
    requires Ordered(ws) && !HoldsStart(ws, nw.startNs)
    ensures HoldsStart(InsertByStart(ws, nw), t) <==> HoldsStart(ws, t) || t == nw.startNs
    ensures HoldsOpen(InsertByStart(ws, nw), t) <==> HoldsOpen(ws, t) || (t == nw.startNs && nw.Open())
  {
    InsertKeepsOrder(ws, nw);
    var r := InsertByStart(ws, nw);
    assert nw in r;
    forall i | 0 <= i < |ws| ensures ws[i] in r {
    }
    forall i | 0 <= i < |r| ensures r[i] in ws || r[i] == nw {
      assert r[i] in r;
    }
  }

  lemma DeliveredNext(h: seq<Burst>, ds: seq<Delivery>, b: nat)
    requires ds != []
    ensures var n := |ds| - 1;
      && (Delivered(ds, b) <==> Delivered(ds[..n], b) || ds[n].Burst() == b)
      && (DeliveredClosed(h, ds, b) <==>
            DeliveredClosed(h, ds[..n], b) || (ds[n].Burst() == b && ReadsClosed(h, ds[n].index)))
  {
    var n := |ds| - 1;
    assert forall k :: 0 <= k < n ==> ds[..n][k] == ds[k];
  }

  lemma MirrorsNext(h: seq<Burst>, ds: seq<Delivery>, s: WindowSet, pid: uint32, maxPerPID: nat)
    requires Orderly(h) && AllSent(h, ds) && ds != [] && |s.wins| < maxPerPID
    requires Ordered(s.wins) && (s.haveCoverage <==> |ds| > 1) && Mirrors(h, ds[..|ds| - 1], s)
    ensures Mirrors(h, ds, AddToSet(s, RecordOf(h, ds[|ds| - 1], pid), maxPerPID))
  {
    var d := ds[|ds| - 1];
    var w := RecordOf(h, d, pid);
    ReadsAsSent(h, d, pid);
    forall b | 0 <= b < |h|
      ensures var r := AddToSet(s, w, maxPerPID);
        && (HoldsStart(r.wins, h[b].start) <==> Delivered(ds, b))
        && (HoldsOpen(r.wins, h[b].start) <==> Delivered(ds, b) && !DeliveredClosed(h, ds, b))
    {
      DeliveredNext(h, ds, b);
      StartOrder(h, b, d.Burst());
      StartOrder(h, d.Burst(), b);
      if HoldsStart(s.wins, w.startNs) {
        SupersedeReads(s.wins, w.ToWindow(), h[b].start);
      } else {
        InsertReads(s.wins, w.ToWindow(), h[b].start);
      }
    }
  }

  lemma {:induction false} AloneMirrors(h: seq<Burst>, ds: seq<Delivery>, pid: uint32, maxPerPID: nat)
    requires Orderly(h) && AllSent(h, ds) && |ds| <= maxPerPID && maxPerPID >= 1
    ensures var s := Alone(Records(h, ds, pid), maxPerPID); Mirrors(h, ds, s) && |s.wins| <= |ds|
  {
    if ds != [] {
      var n := |ds| - 1;
      RecordsNext(h, ds, pid);
      AloneMirrors(h, ds[..n], pid, maxPerPID);
      AloneOfHistory(h, ds[..n], pid, maxPerPID);
      MirrorsNext(h, ds, Alone(Records(h, ds[..n], pid), maxPerPID), pid, maxPerPID);
    }
  }

  lemma {:induction false} RestartDelivered(ds: seq<Delivery>)
    requires ds != []
    ensures Delivered(ds, Restart(ds))
  {
    var n := |ds| - 1;
    if !(|ds| == 1 || ds[n].lost > 0) {
      RestartDelivered(ds[..n]);
      DeliveredNext([], ds, Restart(ds));
    }
  }

  /** A held window, as a burst that arrived. */
  lemma HeldDelivered(h: seq<Burst>, ds: seq<Delivery>, s: WindowSet, i: nat) returns (b: nat)
    requires Orderly(h) && OfHistory(h, s) && Mirrors(h, ds, s) && i < |s.wins|
    ensures b < |h| && s.wins[i].startNs == h[b].start && Delivered(ds, b)
    ensures s.wins[i].Open() ==> !DeliveredClosed(h, ds, b)
  {
    assert s.wins[i] in s.wins;
    b := BurstOf(h, |h| - 1, s.wins[i]);
    assert HoldsStart(s.wins, h[b].start);
  }

  /** Coverage began before a burst with a later one was over exactly when it restarted earlier. */
  lemma RestartedBefore(h: seq<Burst>, ds: seq<Delivery>, s: WindowSet, j: nat)
    requires Orderly(h) && ds != [] && Mirrors(h, ds, s) && j < |h| && !Delivered(ds, j) && h[j].closes
    ensures s.coverageStartNs <= h[j].end <==> Restart(ds) < j
  {
    RestartDelivered(ds);
    StartsBeforeEnd(h, j);
    StartOrder(h, Restart(ds), j);
    StartOrder(h, j, Restart(ds));
  }

  lemma ExposedMissed(h: seq<Burst>, ds: seq<Delivery>, s: WindowSet, j: nat)
    requires Orderly(h) && ds != [] && OfHistory(h, s) && Mirrors(h, ds, s) && Exposed(h, s, j)
    ensures Missed(h, ds, j)
  {
    var i :| 0 <= i < |s.wins| && h[j].start < s.wins[i].startNs;
    var b := HeldDelivered(h, ds, s, i);
    StartOrder(h, j, b);
    RestartedBefore(h, ds, s, j);
    forall c | 0 <= c < j && Delivered(ds, c) ensures DeliveredClosed(h, ds, c) {
      StartOrder(h, c, j);
    }
  }

  lemma MissedExposed(h: seq<Burst>, ds: seq<Delivery>, s: WindowSet, j: nat)
    requires Orderly(h) && AllSent(h, ds) && OfHistory(h, s) && Mirrors(h, ds, s) && Missed(h, ds, j)
    ensures Exposed(h, s, j)
  {
    var b :| j < b && Delivered(ds, b);
    StartOrder(h, j, b);
    assert HoldsStart(s.wins, h[b].start);
    RestartedBefore(h, ds, s, j);
    forall i | 0 <= i < |s.wins| && s.wins[i].Open() ensures h[j].start < s.wins[i].startNs {
      var c := HeldDelivered(h, ds, s, i);
      StartOrder(h, j, c);
    }
  }

  /** Which orders of arrival are safe, exactly: with room for them all, a run is wrong about
      a burst if and only if the arrivals missed it. Their order matters only through the
      last restart. */
  lemma MissedIff(h: seq<Burst>, ds: seq<Delivery>, pid: uint32, rs: seq<Record>,
                  maxPerPID: nat, maxPIDs: nat, j: nat)
    requires Truthful(h) && AllSent(h, ds) && |ds| <= maxPerPID && maxPerPID >= 1
    requires OfProcess(rs, pid) == Records(h, ds, pid)
    ensures var run := Run(rs, maxPerPID, maxPIDs);
      (exists from, to :: WrongFor(h, run, pid, from, to, j)) <==> pid in run && Missed(h, ds, j)
  {
    var run := Run(rs, maxPerPID, maxPIDs);
    AnyOrderIff(h, ds, pid, rs, maxPerPID, maxPIDs, j);
    SentAlone(h, ds, pid, rs, maxPerPID, maxPIDs);
    if pid in run {
      AloneMirrors(h, ds, pid, maxPerPID);
      if Exposed(h, run[pid], j) {
        ExposedMissed(h, ds, run[pid], j);
      }
      if Missed(h, ds, j) {
        MissedExposed(h, ds, run[pid], j);
      }
    }
  }
}
