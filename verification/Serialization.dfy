/** The serialization disclosure: an evidence store over a lossy stream of burst
    records, answering for each execution whether kernels were being serialized
    around it (gpu/serialization.go). */
module Serialization {
  import opened Machine

  const MODE_UNSET: uint8 := 0
  const MODE_CONTINUOUS: uint8 := 1
  const MODE_KERNEL_SERIALIZED: uint8 := 2
  const QUIET_NEVER: uint32 := 0xFFFF_FFFF
  const NS_PER_MS: int := 1_000_000

  datatype SerializationState = Unknown | NotSerialized | Serialized

  /** One burst as it reaches the store. */
  datatype Record = Record(pid: uint32, startNs: uint64, endNs: uint64, mode: uint8,
                           lost: uint64, nextStartDeltaMs: uint32)
  {
    predicate Inverted() { endNs != 0 && endNs < startNs }

    function ToWindow(): Window { Window(startNs, endNs, mode, nextStartDeltaMs) }
  }

  /** One burst as the store holds it. */
  datatype Window = Window(startNs: uint64, endNs: uint64, mode: uint8, quietMs: uint32)
  {
    predicate Open() { endNs == 0 }

    predicate Serializes() { mode == MODE_KERNEL_SERIALIZED }

    predicate Intersects(from: uint64, to: uint64) {
      if to < startNs then false
      else if Open() then true
      else from <= endNs
    }

    /** The last instant this window proves nothing further had started: none if it never
        closed, said nothing or said something that does not fit its word; for ever if it
        said never; otherwise as many milliseconds past its end as it said. */
    function ProvenQuietUntil(): (r: Option<uint64>)
      ensures forall q: int :: r == Some(q) <==>
        && endNs != 0 && quietMs != 0
        && (if quietMs == 0xFFFF_FFFF then q == 0xFFFF_FFFF_FFFF_FFFF
            else q == endNs + quietMs * 1_000_000 < 0x1_0000_0000_0000_0000)
    {
      if Open() || quietMs == 0 then None
      else if quietMs == QUIET_NEVER then Some(MAX_UINT64)
      else
        var end := Add64(endNs, quietMs * NS_PER_MS);
        if end < endNs then None else Some(end)
    }

    /** How far this closed window carries coverage: its own end, plus its promise. */
    function Reach(): (r: uint64)
      ensures endNs <= r
      ensures endNs != 0 ==>
        r == if quietMs == 0xFFFF_FFFF then 0xFFFF_FFFF_FFFF_FFFF
             else if endNs + quietMs * 1_000_000 < 0x1_0000_0000_0000_0000 then endNs + quietMs * 1_000_000
             else endNs
    {
      match ProvenQuietUntil()
      case None => endNs
      case Some(q) => Max(endNs, q)
    }
  }

  datatype WindowSet = WindowSet(wins: seq<Window>, coverageStartNs: uint64, haveCoverage: bool)

  const EMPTY_SET := WindowSet([], 0, false)

  // ----- Ordering by start.

  predicate Ordered(ws: seq<Window>) {
    forall i, j :: 0 <= i < j < |ws| ==> ws[i].startNs < ws[j].startNs
  }

  predicate HoldsStart(ws: seq<Window>, startNs: uint64) {
    exists i :: 0 <= i < |ws| && ws[i].startNs == startNs
  }

  /** A closed record replaces an open one with the same start; nothing else does. */
  function Supersede(ws: seq<Window>, nw: Window): (r: seq<Window>)
    ensures |r| == |ws|
    ensures forall i :: 0 <= i < |ws| ==> r[i].startNs == ws[i].startNs
  {
    seq(|ws|, i requires 0 <= i < |ws| =>
      if ws[i].startNs == nw.startNs && ws[i].Open() && !nw.Open() then nw else ws[i])
  }

  /** Places nw by its start among windows already ordered. */
  function InsertByStart(ws: seq<Window>, nw: Window): (r: seq<Window>)
    ensures |r| == |ws| + 1
  {
    if ws == [] || ws[|ws| - 1].startNs < nw.startNs then ws + [nw]
    else InsertByStart(ws[..|ws| - 1], nw) + [ws[|ws| - 1]]
  }

  /** Insertion neither loses nor invents a window, and keeps the order. */
  lemma {:induction false} InsertKeepsOrder(ws: seq<Window>, nw: Window)
    requires Ordered(ws) && !HoldsStart(ws, nw.startNs)
    ensures var r := InsertByStart(ws, nw);
      && Ordered(r)
      && (forall w :: w in r <==> w in ws || w == nw)
  {
    if !(ws == [] || ws[|ws| - 1].startNs < nw.startNs) {
      var n := |ws| - 1;
      assert ws == ws[..n] + [ws[n]];
      assert !HoldsStart(ws[..n], nw.startNs);
      InsertKeepsOrder(ws[..n], nw);
      var front := InsertByStart(ws[..n], nw);
      forall i | 0 <= i < n + 1 ensures front[i].startNs < ws[n].startNs {
        assert front[i] in ws[..n] || front[i] == nw;
      }
    }
  }

  /** The library sort the store falls back on when a window arrives out of order.
      Starts are distinct, so every sort agrees with this one. */
  function SortByStart(ws: seq<Window>): (r: seq<Window>)
    ensures |r| == |ws|
  {
    if ws == [] then []
    else InsertByStart(SortByStart(ws[..|ws| - 1]), ws[|ws| - 1])
  }

  lemma {:induction false} SortKeepsOrdered(ws: seq<Window>)
    requires Ordered(ws)
    ensures SortByStart(ws) == ws
  {
    if ws != [] {
      var n := |ws| - 1;
      var front := ws[..n];
      SortKeepsOrdered(front);
      assert n > 0 ==> front[n - 1].startNs < ws[n].startNs;
      assert InsertByStart(front, ws[n]) == front + [ws[n]] == ws;
    }
  }

  /** Appending and, when out of order, sorting is the same as inserting in place. */
  lemma AppendSorted(ws: seq<Window>, nw: Window)
    requires Ordered(ws)
    ensures SortByStart(ws + [nw]) == InsertByStart(ws, nw)
  {
    SortKeepsOrdered(ws);
    assert (ws + [nw])[..|ws|] == ws;
  }

  /** Coverage after a record: restarted by a loss or by the very first record. */
  function Restarted(s: WindowSet, w: Record): uint64 {
    if w.lost > 0 || !s.haveCoverage then w.startNs else s.coverageStartNs
  }

  /** The latest maxPerPID windows; what they no longer reach is no longer covered. */
  function Bounded(ws: seq<Window>, cov: uint64, maxPerPID: nat): (r: WindowSet)
    requires maxPerPID >= 1
    ensures |r.wins| == Min(|ws|, maxPerPID)
  {
    if |ws| > maxPerPID then
      var kept := ws[|ws| - maxPerPID..];
      WindowSet(kept, Max(cov, kept[0].startNs), true)
    else WindowSet(ws, cov, true)
  }

  /** One record entering one process's history. */
  function AddToSet(s: WindowSet, w: Record, maxPerPID: nat): (r: WindowSet)
    requires maxPerPID >= 1
    ensures r.haveCoverage
  {
    if HoldsStart(s.wins, w.startNs)
    then WindowSet(Supersede(s.wins, w.ToWindow()), Restarted(s, w), true)
    else Bounded(InsertByStart(s.wins, w.ToWindow()), Restarted(s, w), maxPerPID)
  }

  lemma AddKeepsOrder(s: WindowSet, w: Record, maxPerPID: nat)
    requires maxPerPID >= 1
    requires Ordered(s.wins) && |s.wins| <= maxPerPID
    ensures Ordered(AddToSet(s, w, maxPerPID).wins) && |AddToSet(s, w, maxPerPID).wins| <= maxPerPID
  {
    if !HoldsStart(s.wins, w.startNs) {
      InsertKeepsOrder(s.wins, w.ToWindow());
    }
  }

  /** Every process's history, by pid. */
  type Histories = map<uint32, WindowSet>

  function AddRecord(h: Histories, w: Record, maxPerPID: nat, maxPIDs: nat): (r: Histories)
    requires maxPerPID >= 1
    ensures forall p :: p in h && p != w.pid ==> p in r && r[p] == h[p]
  {
    if w.Inverted() then h
    else if w.pid !in h && |h| >= maxPIDs then h
    else
      h[w.pid := AddToSet(HistoryOf(h, w.pid), w, maxPerPID)]
  }

  /** What one process's history holds, empty before its first record. */
  function HistoryOf(h: Histories, pid: uint32): WindowSet {
    if pid in h then h[pid] else EMPTY_SET
  }

  ghost predicate ValidHistories(h: Histories, maxPerPID: nat, maxPIDs: nat) {
    && maxPerPID >= 1 && maxPIDs >= 1
    && |h| <= maxPIDs
    && forall p :: p in h ==> Ordered(h[p].wins) && |h[p].wins| <= maxPerPID
  }

  /** Both bounds and the start order survive every record, whatever it says. */
  lemma AddKeepsHistories(h: Histories, w: Record, maxPerPID: nat, maxPIDs: nat)
    requires ValidHistories(h, maxPerPID, maxPIDs)
    ensures ValidHistories(AddRecord(h, w, maxPerPID, maxPIDs), maxPerPID, maxPIDs)
  {
    AddKeepsOrder(HistoryOf(h, w.pid), w, maxPerPID);
    SizeWith(h, w.pid, AddToSet(HistoryOf(h, w.pid), w, maxPerPID));
  }

  // ----- Coverage.

  function ScanCoverage(ws: seq<Window>, cov: uint64, end: Option<uint64>): Option<uint64> {
    if ws == [] then end
    else if ws[0].startNs < cov then ScanCoverage(ws[1..], cov, end)
    else if ws[0].Open() then Some(ws[0].startNs)
    else
      var reach := if end.None? then ws[0].Reach() else Max(end.value, ws[0].Reach());
      ScanCoverage(ws[1..], cov, Some(reach))
  }

  /** The last instant a history can speak for, if it can speak at all. */
  function CoverageEnd(s: WindowSet): Option<uint64> {
    if !s.haveCoverage then None else ScanCoverage(s.wins, s.coverageStartNs, None)
  }

  predicate Eligible(ws: seq<Window>, cov: uint64, i: int) {
    0 <= i < |ws| && cov <= ws[i].startNs
  }

  /** What coverage means, without the scan: nothing eligible proves nothing; the
      earliest eligible open window caps everything; otherwise coverage runs to the
      furthest end or promise of any eligible window. */
  ghost predicate IsCoverageEnd(ws: seq<Window>, cov: uint64, end: Option<uint64>) {
    if forall i :: 0 <= i < |ws| ==> !Eligible(ws, cov, i) then end.None?
    else if exists i :: Eligible(ws, cov, i) && ws[i].Open() then
      end.Some?
      && (exists i :: Eligible(ws, cov, i) && ws[i].Open() && end.value == ws[i].startNs)
      && (forall i :: Eligible(ws, cov, i) && ws[i].Open() ==> end.value <= ws[i].startNs)
    else
      end.Some?
      && (exists i :: Eligible(ws, cov, i) && end.value == ws[i].Reach())
      && (forall i :: Eligible(ws, cov, i) ==> ws[i].Reach() <= end.value)
  }

  ghost predicate AnyOpen(ws: seq<Window>, cov: uint64) {
    exists i :: Eligible(ws, cov, i) && ws[i].Open()
  }

  lemma EligibleShift(ws: seq<Window>, cov: uint64)
    requires ws != []
    ensures forall i :: 1 <= i < |ws| ==> Eligible(ws, cov, i) == Eligible(ws[1..], cov, i - 1)
    ensures forall i :: 0 <= i < |ws| - 1 ==> Eligible(ws[1..], cov, i) == Eligible(ws, cov, i + 1)
    ensures AnyOpen(ws, cov) <==> (Eligible(ws, cov, 0) && ws[0].Open()) || AnyOpen(ws[1..], cov)
  {
    var rest := ws[1..];
    if AnyOpen(rest, cov) {
      var i :| Eligible(rest, cov, i) && rest[i].Open();
      assert Eligible(ws, cov, i + 1) && ws[i + 1].Open();
    }
    if AnyOpen(ws, cov) {
      var i :| Eligible(ws, cov, i) && ws[i].Open();
      if i > 0 {
        assert Eligible(rest, cov, i - 1) && rest[i - 1].Open();
      }
    }
  }

  /** The first eligible open window stops the scan at its own start. */
  lemma {:induction false} ScanCapped(ws: seq<Window>, cov: uint64, end: Option<uint64>) returns (k: nat)
    requires Ordered(ws) && AnyOpen(ws, cov)
    ensures Eligible(ws, cov, k) && ws[k].Open()
    ensures ScanCoverage(ws, cov, end) == Some(ws[k].startNs)
    ensures forall i :: Eligible(ws, cov, i) && ws[i].Open() ==> k <= i
  {
    EligibleShift(ws, cov);
    if ws[0].startNs >= cov && ws[0].Open() {
      k := 0;
    } else {
      var next := if ws[0].startNs < cov then end
        else if end.None? then Some(ws[0].Reach()) else Some(Max(end.value, ws[0].Reach()));
      var j := ScanCapped(ws[1..], cov, next);
      k := j + 1;
    }
  }

  /** With no open window in the way the scan accumulates the furthest reach. */
  lemma {:induction false} ScanFurthest(ws: seq<Window>, cov: uint64, end: Option<uint64>)
    requires !AnyOpen(ws, cov)
    ensures var r := ScanCoverage(ws, cov, end);
      && (end.Some? ==> r.Some? && end.value <= r.value)
      && (r == end || (r.Some? && exists i :: Eligible(ws, cov, i) && r.value == ws[i].Reach()))
      && (forall i :: Eligible(ws, cov, i) ==> r.Some? && ws[i].Reach() <= r.value)
  {
    if ws != [] {
      EligibleShift(ws, cov);
      var next := if ws[0].startNs < cov then end
        else if end.None? then Some(ws[0].Reach()) else Some(Max(end.value, ws[0].Reach()));
      ScanFurthest(ws[1..], cov, next);
      var r := ScanCoverage(ws, cov, end);
      if r != next {
        var i :| Eligible(ws[1..], cov, i) && r.value == ws[1..][i].Reach();
        assert Eligible(ws, cov, i + 1) && r.value == ws[i + 1].Reach();
      } else if r != end {
        assert Eligible(ws, cov, 0);
      }
    }
  }

  /** CoverageEnd is exactly the bound described by IsCoverageEnd. */
  lemma CoverageEndExact(s: WindowSet)
    requires s.haveCoverage && Ordered(s.wins)
    ensures IsCoverageEnd(s.wins, s.coverageStartNs, CoverageEnd(s))
  {
    if AnyOpen(s.wins, s.coverageStartNs) {
      var k := ScanCapped(s.wins, s.coverageStartNs, None);
    } else {
      ScanFurthest(s.wins, s.coverageStartNs, None);
    }
  }

  // ----- Classification.

  predicate OverlapsBurst(ws: seq<Window>, from: uint64, to: uint64) {
    exists i :: 0 <= i < |ws| && ws[i].Intersects(from, to)
      && !ws[i].Open() && ws[i].mode != MODE_UNSET && ws[i].Serializes()
  }

  predicate OverlapsOpaque(ws: seq<Window>, from: uint64, to: uint64) {
    exists i :: 0 <= i < |ws| && ws[i].Intersects(from, to)
      && (ws[i].Open() || ws[i].mode == MODE_UNSET)
  }

  function Classify(h: Histories, pid: uint32, from: uint64, to: uint64): SerializationState {
    if to < from || pid !in h || !h[pid].haveCoverage then Unknown
    else if OverlapsBurst(h[pid].wins, from, to) then Serialized
    else if OverlapsOpaque(h[pid].wins, from, to) then Unknown
    else
      var end := CoverageEnd(h[pid]);
      if end.None? || from < h[pid].coverageStartNs || to > end.value then Unknown
      else NotSerialized
  }

  // ----- The store itself.

  class WindowStore {
    var byPID: Histories
    const maxPerPID: nat
    const maxPIDs: nat
    var received: nat
    var superseded: nat
    var evicted: nat
    var refusedPIDs: nat
    var unknownMode: nat

    ghost predicate Valid()
      reads this
    {
      ValidHistories(byPID, maxPerPID, maxPIDs)
    }

    constructor (maxPerPID: int, maxPIDs: int)
      ensures Valid()
      ensures byPID == map[] && received == superseded == evicted == refusedPIDs == unknownMode == 0
      ensures this.maxPerPID == if maxPerPID <= 0 then 4096 else maxPerPID
      ensures this.maxPIDs == if maxPIDs <= 0 then 256 else maxPIDs
    {
      this.maxPerPID := if maxPerPID <= 0 then 4096 else maxPerPID;
      this.maxPIDs := if maxPIDs <= 0 then 256 else maxPIDs;
      byPID := map[];
      received, superseded, evicted, refusedPIDs, unknownMode := 0, 0, 0, 0, 0;
    }

    method Add(w: Record)
      requires Valid()
      modifies this
      ensures Valid()
      ensures byPID == AddRecord(old(byPID), w, maxPerPID, maxPIDs)
      // A mode other than continuous (1) and kernel-serialized (2) is counted, and so is a
      // window that ends before it starts; a process too many is refused.
      ensures var refused := w.pid !in old(byPID) && |old(byPID)| >= maxPIDs;
        && unknownMode == old(unknownMode) + (if w.Inverted() || (!refused && w.mode !in {1, 2}) then 1 else 0)
        && refusedPIDs == old(refusedPIDs) + (if !w.Inverted() && refused then 1 else 0)
      // Every record is refused, or received; every received one is superseded,
      // held, or has pushed out an older one.
      ensures received - old(received) + refusedPIDs - old(refusedPIDs) == if w.Inverted() then 0 else 1
      ensures received - superseded - evicted
        == old(received) - old(superseded) - old(evicted)
           + |HistoryOf(byPID, w.pid).wins| - |HistoryOf(old(byPID), w.pid).wins|
    {
      if w.endNs != 0 && w.endNs < w.startNs {
        unknownMode := unknownMode + 1;
        return;
      }
      if w.pid !in byPID && |byPID| >= maxPIDs {
        refusedPIDs := refusedPIDs + 1;
        return;
      }
      var ws := HistoryOf(byPID, w.pid);
      received := received + 1;
      if w.mode != MODE_CONTINUOUS && w.mode != MODE_KERNEL_SERIALIZED {
        unknownMode := unknownMode + 1;
      }
      AddKeepsHistories(byPID, w, maxPerPID, maxPIDs);
      var r, matched, drop := Enter(ws, w);
      if matched {
        superseded := superseded + 1;
      }
      evicted := evicted + drop;
      byPID := byPID[w.pid := r];
    }

    /** The part of Add that touches one process's history: restart coverage after a
        loss, supersede or insert, then bound. */
    method Enter(before: WindowSet, w: Record) returns (r: WindowSet, matched: bool, drop: nat)
      requires maxPerPID >= 1 && Ordered(before.wins)
      ensures r == AddToSet(before, w, maxPerPID)
      ensures |r.wins| == |before.wins| + 1 - drop - if matched then 1 else 0
    {
      var cov := before.coverageStartNs;
      if w.lost > 0 || !before.haveCoverage {
        cov := w.startNs;
      }
      var nw := w.ToWindow();
      var wins: seq<Window>;
      wins, matched := SupersedeOwn(before.wins, nw);
      drop := 0;
      if !matched {
        wins := AppendInOrder(wins, nw);
        r, drop := Bound(wins, cov);
      } else {
        r := WindowSet(wins, cov, true);
      }
    }

    method Bound(wins: seq<Window>, cov: uint64) returns (r: WindowSet, drop: nat)
      requires maxPerPID >= 1
      ensures r == Bounded(wins, cov, maxPerPID) && |r.wins| == |wins| - drop
    {
      drop := 0;
      if |wins| <= maxPerPID {
        return WindowSet(wins, cov, true), 0;
      }
      drop := |wins| - maxPerPID;
      var kept := wins[drop..];
      r := WindowSet(kept, if kept[0].startNs > cov then kept[0].startNs else cov, true);
    }

    method AppendInOrder(wins: seq<Window>, nw: Window) returns (r: seq<Window>)
      requires Ordered(wins) && !HoldsStart(wins, nw.startNs)
      ensures r == InsertByStart(wins, nw)
    {
      r := wins + [nw];
      if |r| > 1 && r[|r| - 2].startNs > nw.startNs {
        AppendSorted(wins, nw);
        r := SortByStart(r);
      } else {
        assert wins != [] ==> wins[|wins| - 1].startNs != nw.startNs;
      }
    }

    /** The backward scan for this burst's own earlier record. */
    method SupersedeOwn(wins: seq<Window>, nw: Window) returns (r: seq<Window>, matched: bool)
      requires Ordered(wins)
      ensures matched <==> HoldsStart(wins, nw.startNs)
      ensures r == if matched then Supersede(wins, nw) else wins
    {
      for i := |wins| downto 0
        invariant forall k :: i <= k < |wins| ==> wins[k].startNs != nw.startNs
      {
        if wins[i].startNs == nw.startNs {
          r := wins;
          if wins[i].Open() && !nw.Open() {
            r := wins[i := nw];
          }
          assert r == Supersede(wins, nw);
          return r, true;
        }
      }
      return wins, false;
    }

    /** The last instant a history can speak for. */
    method CoverageEndNs(ws: WindowSet) returns (end: uint64, have: bool)
      ensures CoverageEnd(ws) == if have then Some(end) else None
    {
      end, have := 0, false;
      if !ws.haveCoverage || |ws.wins| == 0 {
        return;
      }
      for i := 0 to |ws.wins|
        invariant ScanCoverage(ws.wins, ws.coverageStartNs, None)
          == ScanCoverage(ws.wins[i..], ws.coverageStartNs, if have then Some(end) else None)
      {
        var w := ws.wins[i];
        assert ws.wins[i..][0] == w && ws.wins[i..][1..] == ws.wins[i + 1..];
        if w.startNs < ws.coverageStartNs {
          continue;
        }
        if w.Open() {
          return w.startNs, true;
        }
        if !have || w.endNs > end {
          end, have := w.endNs, true;
        }
        var quiet := w.ProvenQuietUntil();
        if quiet.Some? && quiet.value > end {
          end := quiet.value;
        }
      }
      assert ws.wins[|ws.wins|..] == [];
    }

    method ClassifyExecution(pid: uint32, startNs: uint64, endNs: uint64) returns (r: SerializationState)
      ensures r == Classify(byPID, pid, startNs, endNs)
    {
      if endNs < startNs {
        return Unknown;
      }
      if pid !in byPID || !byPID[pid].haveCoverage {
        return Unknown;
      }
      var ws := byPID[pid];
      var opaque_ := false;
      for i := 0 to |ws.wins|
        invariant forall k :: 0 <= k < i && ws.wins[k].Intersects(startNs, endNs) ==>
          ws.wins[k].Open() || ws.wins[k].mode == MODE_UNSET || !ws.wins[k].Serializes()
        invariant opaque_ <==>
          exists k ::
            && 0 <= k < i
            && ws.wins[k].Intersects(startNs, endNs)
            && (ws.wins[k].Open() || ws.wins[k].mode == MODE_UNSET)
      {
        var w := ws.wins[i];
        if !w.Intersects(startNs, endNs) {
          continue;
        }
        if w.Open() || w.mode == MODE_UNSET {
          opaque_ := true;
        } else if w.Serializes() {
          return Serialized;
        }
      }
      if opaque_ {
        return Unknown;
      }
      var end, ok := CoverageEndNs(ws);
      if !ok || startNs < ws.coverageStartNs || endNs > end {
        return Unknown;
      }
      return NotSerialized;
    }
  }
}
