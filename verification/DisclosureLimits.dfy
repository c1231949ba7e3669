/** Where the comments of gpu/serialization.go say more than its code does, and exactly
    how much of what they say holds. */
module DisclosureLimits {
  import opened Machine
  import opened Serialization
  import opened Disclosure

  // ----- What evicting the oldest window does to an answer.

  /** One process's answer, on its own. */
  function Answer(s: WindowSet, from: uint64, to: uint64): SerializationState {
    Classify(map[0 := s], 0, from, to)
  }

  /** A window that stands in the way of "not serialized": a closed serialized burst, or
      one that cannot be read. */
  predicate Troubling(w: Window) { ClosedBurst(w) || Opaque(w) }

  predicate ClosedBurst(w: Window) { !w.Open() && w.mode != MODE_UNSET && w.Serializes() }

  predicate Opaque(w: Window) { w.Open() || w.mode == MODE_UNSET }

  /** No window in the way meets the interval. */
  ghost predicate Clear(ws: seq<Window>, from: uint64, to: uint64) {
    forall i :: 0 <= i < |ws| && Troubling(ws[i]) ==> !ws[i].Intersects(from, to)
  }

  /** The interval lies in what the history can speak for. */
  predicate Covered(s: WindowSet, from: uint64, to: uint64) {
    s.haveCoverage && s.coverageStartNs <= from && CoverageEnd(s).Some? && to <= CoverageEnd(s).value
  }

  /** Each answer, on the windows. */
  lemma AnswerIff(s: WindowSet, from: uint64, to: uint64)
    requires s.haveCoverage
    ensures Answer(s, from, to) == Serialized <==> from <= to && OverlapsBurst(s.wins, from, to)
    ensures Answer(s, from, to) == NotSerialized <==> from <= to && Clear(s.wins, from, to) && Covered(s, from, to)
  {
    if Clear(s.wins, from, to) {
      assert !OverlapsBurst(s.wins, from, to) && !OverlapsOpaque(s.wins, from, to);
    } else {
      var i :| 0 <= i < |s.wins| && Troubling(s.wins[i]) && s.wins[i].Intersects(from, to);
      assert OverlapsBurst(s.wins, from, to) || OverlapsOpaque(s.wins, from, to);
    }
  }

  lemma EligibleEvicted(ws: seq<Window>, cov: uint64, i: int)
    requires Ordered(ws) && |ws| >= 2
    ensures Eligible(ws[1..], Max(cov, ws[1].startNs), i) <==> i >= 0 && Eligible(ws, cov, i + 1)
  {
  }

  /** Without the oldest window, if it is closed, coverage ends no later and no sooner than
      what is left proves. */
  lemma CoverageEndEvicted(ws: seq<Window>, cov: uint64)
    requires Ordered(ws) && |ws| >= 2 && !ws[0].Open()
    ensures var kept := WindowSet(ws[1..], Max(cov, ws[1].startNs), true);
      CoverageEnd(kept).Some? ==>
        CoverageEnd(WindowSet(ws, cov, true)).Some?
        && CoverageEnd(kept).value <= CoverageEnd(WindowSet(ws, cov, true)).value
  {
    var all, kept := WindowSet(ws, cov, true), WindowSet(ws[1..], Max(cov, ws[1].startNs), true);
    CoverageEndExact(all);
    CoverageEndExact(kept);
    forall i ensures Eligible(kept.wins, kept.coverageStartNs, i) <==> i >= 0 && Eligible(ws, cov, i + 1) {
      EligibleEvicted(ws, cov, i);
    }
    if CoverageEnd(kept).Some? {
      var k := CoverageWitness(kept);
    }
  }

  lemma OverlapsWithout(ws: seq<Window>, from: uint64, to: uint64)
    requires ws != []
    ensures OverlapsBurst(ws, from, to) <==>
      (ws[0].Intersects(from, to) && ClosedBurst(ws[0])) || OverlapsBurst(ws[1..], from, to)
    ensures Clear(ws, from, to) <==>
      !(ws[0].Intersects(from, to) && Troubling(ws[0])) && Clear(ws[1..], from, to)
  {
    var rest := ws[1..];
    assert forall i :: 0 <= i < |rest| ==> rest[i] == ws[i + 1];
    if OverlapsBurst(ws, from, to) && !(ws[0].Intersects(from, to) && ClosedBurst(ws[0])) {
      var i :| 0 <= i < |ws| && ws[i].Intersects(from, to) && !ws[i].Open() && ws[i].mode != MODE_UNSET
        && ws[i].Serializes();
      assert rest[i - 1] == ws[i];
    }
    forall i | 1 <= i < |ws| && Clear(rest, from, to) && Troubling(ws[i])
      ensures !ws[i].Intersects(from, to)
    {
      assert rest[i - 1] == ws[i];
    }
  }

  /** What is still covered was covered before; and it lies after the dropped window's start. */
  lemma CoveredBefore(ws: seq<Window>, cov: uint64, maxPerPID: nat, from: uint64, to: uint64)
    requires Ordered(ws) && maxPerPID >= 1 && |ws| == maxPerPID + 1 && from <= to
    requires Covered(Bounded(ws, cov, maxPerPID), from, to)
    ensures ws[0].startNs < from
    ensures ws[0].Open() || Covered(WindowSet(ws, cov, true), from, to)
  {
    if !ws[0].Open() {
      CoverageEndEvicted(ws, cov);
    }
  }

  /** What the oldest window alone made of an interval nothing else stands in the way of. */
  function Imposed(w: Window, from: uint64, to: uint64): SerializationState {
    if !w.Intersects(from, to) || !Troubling(w) then NotSerialized
    else if ClosedBurst(w) then Serialized
    else Unknown
  }

  /** The dropped burst was all that made the answer "serialized". */
  predicate Forgets(ws: seq<Window>, from: uint64, to: uint64)
    requires ws != []
  {
    from <= to && ClosedBurst(ws[0]) && ws[0].Intersects(from, to) && !OverlapsBurst(ws[1..], from, to)
  }

  /** The dropped window was all that stood in the way, in what is still covered. */
  ghost predicate Uncovers(ws: seq<Window>, cov: uint64, maxPerPID: nat, from: uint64, to: uint64)
    requires ws != [] && maxPerPID >= 1
  {
    && from <= to && Troubling(ws[0]) && ws[0].Intersects(from, to)
    && Clear(ws[1..], from, to) && Covered(Bounded(ws, cov, maxPerPID), from, to)
  }

  /** Nothing stood in the way, in what was covered and is no longer. */
  ghost predicate Concedes(ws: seq<Window>, cov: uint64, maxPerPID: nat, from: uint64, to: uint64)
    requires maxPerPID >= 1
  {
    && from <= to && Clear(ws, from, to)
    && Covered(WindowSet(ws, cov, true), from, to) && !Covered(Bounded(ws, cov, maxPerPID), from, to)
  }

  /** Every way eviction can move an answer, for every ordered history one over its bound
      and every interval, each as a condition on the windows. */
  lemma EvictionExact(ws: seq<Window>, cov: uint64, maxPerPID: nat, from: uint64, to: uint64)
    requires Ordered(ws) && maxPerPID >= 1 && |ws| == maxPerPID + 1
    ensures var before := Answer(WindowSet(ws, cov, true), from, to);
      var after := Answer(Bounded(ws, cov, maxPerPID), from, to);
      && (after == Serialized ==> before == Serialized)
      && (before == Serialized && after != Serialized <==> Forgets(ws, from, to))
      && (before != NotSerialized && after == NotSerialized <==> Uncovers(ws, cov, maxPerPID, from, to))
      && (before == NotSerialized && after == Unknown <==> Concedes(ws, cov, maxPerPID, from, to))
      && (after == NotSerialized ==> before == Imposed(ws[0], from, to))
  {
    AnswerIff(WindowSet(ws, cov, true), from, to);
    AnswerIff(Bounded(ws, cov, maxPerPID), from, to);
    OverlapsWithout(ws, from, to);
    if from <= to && Covered(Bounded(ws, cov, maxPerPID), from, to) {
      CoveredBefore(ws, cov, maxPerPID, from, to);
    }
  }

  /** What eviction is said to do to an answer, at most: from "not serialized" to "unknown". */
  predicate OnlyConcedes(before: SerializationState, after: SerializationState) {
    after == before || (before == NotSerialized && after == Unknown)
  }

  /** It does no more than that to one answer if and only if the dropped window was not
      all that decided it. */
  lemma ConcedesIff(ws: seq<Window>, cov: uint64, maxPerPID: nat, from: uint64, to: uint64)
    requires Ordered(ws) && maxPerPID >= 1 && |ws| == maxPerPID + 1
    ensures OnlyConcedes(Answer(WindowSet(ws, cov, true), from, to), Answer(Bounded(ws, cov, maxPerPID), from, to))
      <==> !Forgets(ws, from, to) && !Uncovers(ws, cov, maxPerPID, from, to)
  {
    EvictionExact(ws, cov, maxPerPID, from, to);
  }

  /** Every closed serialized burst is forgotten when it is dropped: up to its own start the
      answer was "serialized" and is "unknown". */
  lemma DroppedForgotten(ws: seq<Window>, cov: uint64, maxPerPID: nat)
    requires Ordered(ws) && maxPerPID >= 1 && |ws| == maxPerPID + 1 && ClosedBurst(ws[0])
    ensures var from, to := Min(ws[0].startNs, ws[0].endNs), ws[0].startNs;
      && Forgets(ws, from, to)
      && Answer(WindowSet(ws, cov, true), from, to) == Serialized
      && Answer(Bounded(ws, cov, maxPerPID), from, to) == Unknown
  {
    var from, to := Min(ws[0].startNs, ws[0].endNs), ws[0].startNs;
    assert forall i :: 0 <= i < |ws[1..]| ==> !ws[1..][i].Intersects(from, to);
    EvictionExact(ws, cov, maxPerPID, from, to);
    AnswerIff(Bounded(ws, cov, maxPerPID), from, to);
  }

  /** An instant still covered that the dropped window met and no kept window in the way meets. */
  ghost predicate Exposes(ws: seq<Window>, cov: uint64, maxPerPID: nat, t: uint64)
    requires ws != [] && maxPerPID >= 1
  {
    ws[0].Intersects(t, t) && Clear(ws[1..], t, t) && Covered(Bounded(ws, cov, maxPerPID), t, t)
  }

  /** Of what an interval uncovers, its first instant is exposed. */
  lemma UncoversFirst(ws: seq<Window>, cov: uint64, maxPerPID: nat, from: uint64, to: uint64)
    requires Ordered(ws) && maxPerPID >= 1 && |ws| == maxPerPID + 1 && Uncovers(ws, cov, maxPerPID, from, to)
    ensures Exposes(ws, cov, maxPerPID, from)
  {
    CoveredBefore(ws, cov, maxPerPID, from, to);
  }

  /** An answer becomes "not serialized" through eviction. */
  ghost predicate Settled(ws: seq<Window>, cov: uint64, maxPerPID: nat, from: uint64, to: uint64)
    requires maxPerPID >= 1
  {
    && Answer(WindowSet(ws, cov, true), from, to) != NotSerialized
    && Answer(Bounded(ws, cov, maxPerPID), from, to) == NotSerialized
  }

  /** The dropped window can have mattered: it stood in the way, and it was open or reached
      into what is still covered. */
  predicate CanSettle(dropped: Window, cov: uint64) {
    Troubling(dropped) && (dropped.Open() || cov <= dropped.endNs)
  }

  /** Eviction makes some answer "not serialized" if and only if the dropped window stood in
      the way and an instant is exposed; it must then have been open or have ended at or
      after the new coverage start, and at that start this is exact. */
  lemma EvictionSettlesIff(ws: seq<Window>, cov: uint64, maxPerPID: nat)
    requires Ordered(ws) && maxPerPID >= 1 && |ws| == maxPerPID + 1
    ensures var start := Bounded(ws, cov, maxPerPID).coverageStartNs;
      && ((exists from, to :: Settled(ws, cov, maxPerPID, from, to)) <==>
            Troubling(ws[0]) && exists t :: Exposes(ws, cov, maxPerPID, t))
      && ((exists from, to :: Settled(ws, cov, maxPerPID, from, to)) ==> CanSettle(ws[0], start))
      && (Answer(Bounded(ws, cov, maxPerPID), start, start) == NotSerialized ==>
            (Settled(ws, cov, maxPerPID, start, start) <==> CanSettle(ws[0], start)))
  {
    var start := Bounded(ws, cov, maxPerPID).coverageStartNs;
    forall from, to | Settled(ws, cov, maxPerPID, from, to)
      ensures CanSettle(ws[0], start) && Exposes(ws, cov, maxPerPID, from)
    {
      EvictionExact(ws, cov, maxPerPID, from, to);
      UncoversFirst(ws, cov, maxPerPID, from, to);
    }
    forall t | Troubling(ws[0]) && Exposes(ws, cov, maxPerPID, t)
      ensures Settled(ws, cov, maxPerPID, t, t)
    {
      EvictionExact(ws, cov, maxPerPID, t, t);
    }
    EvictionExact(ws, cov, maxPerPID, start, start);
  }

  /** For every interval at once: eviction only ever concedes if and only if the dropped
      window is no closed burst and, where it cannot be read, exposes nothing. */
  lemma EvictionConcedesIff(ws: seq<Window>, cov: uint64, maxPerPID: nat)
    requires Ordered(ws) && maxPerPID >= 1 && |ws| == maxPerPID + 1
    ensures (forall from, to ::
        OnlyConcedes(Answer(WindowSet(ws, cov, true), from, to), Answer(Bounded(ws, cov, maxPerPID), from, to)))
      <==> !ClosedBurst(ws[0]) && (Opaque(ws[0]) ==> forall t :: !Exposes(ws, cov, maxPerPID, t))
  {
    if ClosedBurst(ws[0]) {
      DroppedForgotten(ws, cov, maxPerPID);
    } else {
      forall from, to | Opaque(ws[0]) ==> forall t :: !Exposes(ws, cov, maxPerPID, t)
        ensures OnlyConcedes(Answer(WindowSet(ws, cov, true), from, to), Answer(Bounded(ws, cov, maxPerPID), from, to))
      {
        ConcedesIff(ws, cov, maxPerPID, from, to);
        if Uncovers(ws, cov, maxPerPID, from, to) {
          UncoversFirst(ws, cov, maxPerPID, from, to);
        }
      }
      if t :| Opaque(ws[0]) && Exposes(ws, cov, maxPerPID, t) {
        ConcedesIff(ws, cov, maxPerPID, t, t);
        assert Uncovers(ws, cov, maxPerPID, t, t);
      }
    }
  }

  ghost predicate Disjoint(ws: seq<Window>) {
    forall i, j :: 0 <= i < j < |ws| && !ws[i].Open() ==> ws[i].endNs < ws[j].startNs
  }

  /** Of disjoint windows only dropping an open one settles anything, and it settles
      every interval that is answerable afterwards. */
  lemma DisjointSettlesIff(ws: seq<Window>, cov: uint64, maxPerPID: nat, from: uint64, to: uint64)
    requires Ordered(ws) && Disjoint(ws) && maxPerPID >= 1 && |ws| == maxPerPID + 1
    requires Answer(Bounded(ws, cov, maxPerPID), from, to) == NotSerialized
    ensures Settled(ws, cov, maxPerPID, from, to) <==> ws[0].Open()
  {
    EvictionExact(ws, cov, maxPerPID, from, to);
    AnswerIff(Bounded(ws, cov, maxPerPID), from, to);
  }

  /** The same of the store: the record that overflows a full history, against the same
      record entering a history with one more place. */
  lemma OverflowExact(s: WindowSet, w: Record, maxPerPID: nat, from: uint64, to: uint64)
    requires Ordered(s.wins) && maxPerPID >= 1 && |s.wins| == maxPerPID && !HoldsStart(s.wins, w.startNs)
    ensures var ws, cov := InsertByStart(s.wins, w.ToWindow()), Restarted(s, w);
      var before, after := Answer(AddToSet(s, w, maxPerPID + 1), from, to), Answer(AddToSet(s, w, maxPerPID), from, to);
      && (OnlyConcedes(before, after) <==> !Forgets(ws, from, to) && !Uncovers(ws, cov, maxPerPID, from, to))
      && (after == NotSerialized ==> before == Imposed(ws[0], from, to))
  {
    InsertKeepsOrder(s.wins, w.ToWindow());
    EvictionExact(InsertByStart(s.wins, w.ToWindow()), Restarted(s, w), maxPerPID, from, to);
  }

  /** In the steady state every overflow forgets: of a full history whose oldest window is a
      closed burst, any newer record turns a "serialized" answer into "unknown". */
  lemma OverflowForgets(s: WindowSet, w: Record, maxPerPID: nat)
    requires Ordered(s.wins) && maxPerPID >= 1 && |s.wins| == maxPerPID && s.haveCoverage
    requires ClosedBurst(s.wins[0]) && s.wins[0].startNs < w.startNs && !HoldsStart(s.wins, w.startNs)
    ensures var from, to := Min(s.wins[0].startNs, s.wins[0].endNs), s.wins[0].startNs;
      && Answer(s, from, to) == Serialized
      && Answer(AddToSet(s, w, maxPerPID), from, to) == Unknown
  {
    InsertKeepsOrder(s.wins, w.ToWindow());
    InsertFront(s.wins, w.ToWindow());
    DroppedForgotten(InsertByStart(s.wins, w.ToWindow()), Restarted(s, w), maxPerPID);
  }

  // ----- Reached by runs of the store.

  /** A lone process's history, record by record. */
  function Alone(rs: seq<Record>, maxPerPID: nat): WindowSet
    requires maxPerPID >= 1
  {
    if rs == [] then EMPTY_SET else AddToSet(Alone(rs[..|rs| - 1], maxPerPID), rs[|rs| - 1], maxPerPID)
  }

  lemma {:induction false} AloneRuns(rs: seq<Record>, pid: uint32, maxPerPID: nat, maxPIDs: nat)
    requires maxPerPID >= 1 && maxPIDs >= 1 && forall r :: r in rs ==> r.pid == pid && !r.Inverted()
    ensures Run(rs, maxPerPID, maxPIDs) == if rs == [] then map[] else map[pid := Alone(rs, maxPerPID)]
  {
    if rs != [] {
      AloneRuns(rs[..|rs| - 1], pid, maxPerPID, maxPIDs);
    }
  }

  lemma AloneNext(rs: seq<Record>, r: Record, maxPerPID: nat)
    requires maxPerPID >= 1
    ensures Alone(rs + [r], maxPerPID) == AddToSet(Alone(rs, maxPerPID), r, maxPerPID)
  {
    assert (rs + [r])[..|rs|] == rs;
  }

  const QUIET_PAIR := [Window(20, 30, MODE_CONTINUOUS, 0), Window(40, 50, MODE_CONTINUOUS, 0)]

  lemma QuietPairCovers(cov: uint64)
    requires 10 <= cov <= 20
    ensures CoverageEnd(WindowSet(QUIET_PAIR, cov, true)) == Some(50)
  {
    assert QUIET_PAIR[1..] == [QUIET_PAIR[1]];
    assert ScanCoverage([QUIET_PAIR[1]], cov, Some(30)) == ScanCoverage([], cov, Some(50));
  }

  /** A first window, then the quiet pair, in a history with room for two. */
  function Overflowing(pid: uint32, endNs: uint64, lost: uint64): seq<Record> {
    [Record(pid, 10, endNs, MODE_KERNEL_SERIALIZED, 0, 0), Record(pid, 20, 30, MODE_CONTINUOUS, lost, 0)]
  }

  lemma OverflowingHeld(pid: uint32, endNs: uint64, lost: uint64)
    ensures Alone(Overflowing(pid, endNs, lost), 2)
      == WindowSet([Window(10, endNs, MODE_KERNEL_SERIALIZED, 0), QUIET_PAIR[0]], if lost > 0 then 20 else 10, true)
  {
    var rs := Overflowing(pid, endNs, lost);
    AloneNext([], rs[0], 2);
    AloneNext([rs[0]], rs[1], 2);
    assert [] + [rs[0]] == [rs[0]] && [rs[0]] + [rs[1]] == rs;
    assert Alone([rs[0]], 2) == WindowSet([Window(10, endNs, MODE_KERNEL_SERIALIZED, 0)], 10, true);
  }

  lemma OverflowingDropped(pid: uint32, endNs: uint64, lost: uint64, last: Record)
    requires last == Record(pid, 40, 50, MODE_CONTINUOUS, 0, 0)
    ensures Alone(Overflowing(pid, endNs, lost) + [last], 2) == WindowSet(QUIET_PAIR, 20, true)
  {
    var rs := Overflowing(pid, endNs, lost);
    OverflowingHeld(pid, endNs, lost);
    AloneNext(rs, last, 2);
    var s := Alone(rs, 2);
    assert InsertByStart(s.wins, last.ToWindow()) == s.wins + [QUIET_PAIR[1]];
    assert (s.wins + [QUIET_PAIR[1]])[1..] == QUIET_PAIR;
  }

  lemma RunAnswers(rs: seq<Record>, pid: uint32, maxPerPID: nat, maxPIDs: nat, from: uint64, to: uint64)
    requires maxPerPID >= 1 && maxPIDs >= 1 && rs != [] && forall r :: r in rs ==> r.pid == pid && !r.Inverted()
    ensures Classify(Run(rs, maxPerPID, maxPIDs), pid, from, to) == Answer(Alone(rs, maxPerPID), from, to)
  {
    AloneRuns(rs, pid, maxPerPID, maxPIDs);
  }

  lemma QuietAnswer()
    ensures Answer(WindowSet(QUIET_PAIR, 20, true), 20, 30) == NotSerialized
  {
    QuietPairCovers(20);
  }

  lemma FirstImposes(ws: seq<Window>, cov: uint64, endNs: uint64)
    requires ws == [Window(10, endNs, MODE_KERNEL_SERIALIZED, 0), QUIET_PAIR[0]] && (endNs == 0 || endNs >= 20)
    ensures Answer(WindowSet(ws, cov, true), 20, 30) == if endNs == 0 then Unknown else Serialized
  {
    assert ws[0].Intersects(20, 30);
  }

  /** Reached: the overflow turns the answer for [20, 30] into "not serialized", from
      "unknown" when the dropped window was open, from "serialized" when it overlapped. */
  lemma EvictionCanSettle(pid: uint32, endNs: uint64, lost: uint64, rs: seq<Record>, last: Record, maxPerPID: nat)
    requires maxPerPID == 2 && (endNs == 0 || endNs >= 20)
    requires rs == Overflowing(pid, endNs, lost) && last == Record(pid, 40, 50, MODE_CONTINUOUS, 0, 0)
    ensures Classify(Run(rs, maxPerPID, 1), pid, 20, 30) == if endNs == 0 then Unknown else Serialized
    ensures Classify(Run(rs + [last], maxPerPID, 1), pid, 20, 30) == NotSerialized
  {
    OverflowingHeld(pid, endNs, lost);
    OverflowingDropped(pid, endNs, lost, last);
    RunAnswers(rs, pid, maxPerPID, 1, 20, 30);
    RunAnswers(rs + [last], pid, maxPerPID, 1, 20, 30);
    FirstImposes(Alone(rs, maxPerPID).wins, Alone(rs, maxPerPID).coverageStartNs, endNs);
    QuietAnswer();
  }

  lemma OneHeld(first: Record)
    ensures Alone([first], 1) == WindowSet([first.ToWindow()], first.startNs, true)
  {
    AloneNext([], first, 1);
    assert [] + [first] == [first] && InsertByStart([], first.ToWindow()) == [first.ToWindow()];
  }

  /** With room for one window only the newest is held, and coverage begins there. */
  lemma NewestHeldOnly(first: Record, last: Record)
    requires first.startNs < last.startNs
    ensures Alone([first] + [last], 1) == WindowSet([last.ToWindow()], last.startNs, true)
  {
    OneHeld(first);
    AloneNext([first], last, 1);
    var ws := [first.ToWindow()];
    assert !HoldsStart(ws, last.startNs);
    assert InsertByStart(ws, last.ToWindow()) == ws + [last.ToWindow()];
    assert (ws + [last.ToWindow()])[1..] == [last.ToWindow()];
  }

  /** Reached: in a history with room for one, any record after a closed serialized burst
      turns every interval that met the burst and ended before the record from "serialized"
      into "unknown". */
  lemma EvictionCanForget(pid: uint32, first: Record, last: Record, from: uint64, to: uint64)
    requires first.pid == last.pid == pid && !first.Inverted() && !last.Inverted() && ClosedBurst(first.ToWindow())
    requires from <= to && from <= first.endNs && first.startNs <= to < last.startNs
    ensures Classify(Run([first], 1, 1), pid, from, to) == Serialized
    ensures Classify(Run([first] + [last], 1, 1), pid, from, to) == Unknown
  {
    OneHeld(first);
    NewestHeldOnly(first, last);
    RunAnswers([first], pid, 1, 1, from, to);
    RunAnswers([first] + [last], pid, 1, 1, from, to);
    assert Alone([first], 1).wins[0].Intersects(from, to);
    AnswerIff(Alone([first], 1), from, to);
    AnswerIff(Alone([first] + [last], 1), from, to);
  }

  // ----- Which way the coverage start moves.

  /** It moves backward exactly when a flagged record is older than it, and is not itself
      what a full history drops while everything held is covered. */
  lemma CoverageForwardIff(s: WindowSet, w: Record, maxPerPID: nat)
    requires maxPerPID >= 1 && s.haveCoverage && Ordered(s.wins) && |s.wins| <= maxPerPID
    ensures s.coverageStartNs <= AddToSet(s, w, maxPerPID).coverageStartNs <==>
      || w.lost == 0
      || s.coverageStartNs <= w.startNs
      || (|s.wins| == maxPerPID && w.startNs < s.wins[0].startNs && s.coverageStartNs <= s.wins[0].startNs)
  {
    if !HoldsStart(s.wins, w.startNs) && |s.wins| == maxPerPID {
      InsertFront(s.wins, w.ToWindow());
    }
  }

  /** What an insertion leaves second: the old front, if the new window goes before it. */
  lemma {:induction false} InsertFront(ws: seq<Window>, nw: Window)
    requires Ordered(ws) && ws != [] && !HoldsStart(ws, nw.startNs)
    ensures var r := InsertByStart(ws, nw);
      if nw.startNs < ws[0].startNs then r[0] == nw && r[1] == ws[0]
      else r[0] == ws[0] && r[1].startNs <= nw.startNs
  {
    var n := |ws| - 1;
    if ws[n].startNs < nw.startNs {
      assert InsertByStart(ws, nw) == ws + [nw];
    } else if n > 0 {
      assert !HoldsStart(ws[..n], nw.startNs);
      InsertFront(ws[..n], nw);
    } else {
      assert InsertByStart([], nw) == [nw];
      assert ws[0].startNs != nw.startNs;
      assert ws[..0] == [];
    }
  }

  function TwoWindows(pid: uint32): seq<Record> {
    [Record(pid, 100, 110, MODE_CONTINUOUS, 0, 0), Record(pid, 200, 210, MODE_CONTINUOUS, 0, 0)]
  }

  lemma TwoHeld(pid: uint32, maxPerPID: nat)
    requires maxPerPID >= 2
    ensures Alone(TwoWindows(pid), maxPerPID)
      == WindowSet([Window(100, 110, MODE_CONTINUOUS, 0), Window(200, 210, MODE_CONTINUOUS, 0)], 100, true)
  {
    var rs := TwoWindows(pid);
    var first, second := Window(100, 110, MODE_CONTINUOUS, 0), Window(200, 210, MODE_CONTINUOUS, 0);
    AloneNext([], rs[0], maxPerPID);
    AloneNext([rs[0]], rs[1], maxPerPID);
    assert [] + [rs[0]] == [rs[0]] && [rs[0]] + [rs[1]] == rs;
    assert InsertByStart([], first) == [first];
    assert Alone([rs[0]], maxPerPID) == WindowSet([first], 100, true);
    assert InsertByStart([first], second) == [first] + [second];
    assert !HoldsStart([first], 200);
  }

  /** Reached: after windows at 100 and 200 a flagged record at 50 moves the coverage start
      back to it, unless the history was full: then the record is the one dropped. */
  lemma CoverageCanRetreat(pid: uint32, maxPerPID: nat, late: Record)
    requires maxPerPID >= 2 && late.pid == pid && late.startNs == 50 && late.endNs == 60 && late.lost > 0
    ensures var rs := TwoWindows(pid);
      && Run(rs, maxPerPID, 1).Keys == {pid} && Run(rs, maxPerPID, 1)[pid].coverageStartNs == 100
      && Run(rs + [late], maxPerPID, 1).Keys == {pid}
      && Run(rs + [late], maxPerPID, 1)[pid].coverageStartNs == if maxPerPID == 2 then 100 else 50
  {
    var rs := TwoWindows(pid);
    TwoHeld(pid, maxPerPID);
    AloneNext(rs, late, maxPerPID);
    LateAdded(Alone(rs, maxPerPID), late, maxPerPID);
    AloneRuns(rs, pid, maxPerPID, 1);
    AloneRuns(rs + [late], pid, maxPerPID, 1);
  }

  lemma LateAdded(s: WindowSet, late: Record, maxPerPID: nat)
    requires s == WindowSet([Window(100, 110, MODE_CONTINUOUS, 0), Window(200, 210, MODE_CONTINUOUS, 0)], 100, true)
    requires maxPerPID >= 2 && late.startNs == 50 && late.lost > 0
    ensures AddToSet(s, late, maxPerPID).coverageStartNs == if maxPerPID == 2 then 100 else 50
  {
    assert !HoldsStart(s.wins, 50);
    InsertFront(s.wins, late.ToWindow());
  }
}
