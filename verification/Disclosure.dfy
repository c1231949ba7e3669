/** Soundness of the serialization disclosure against the producer's true history,
    most of which the store may never have seen (gpu/serialization.go,
    gpuprobe/consumer.go). */
module Disclosure {
  import opened Machine
  import opened Serialization

  // ----- What really happened.

  /** One real burst: when it ran, whether kernels were serialized, and what its two
      records say. A burst with closes == false never ends (a hard exit). */
  datatype Burst = Burst(start: uint64, closes: bool, end: uint64, serialized: bool,
                         openMode: uint8, closeMode: uint8, openQuiet: uint32, quiet: uint32)
  {
    ghost predicate Intersects(from: uint64, to: uint64) {
      start <= to && (closes ==> from <= end)
    }

    function OpenWindow(): Window { Window(start, 0, openMode, openQuiet) }

    function CloseWindow(): Window { Window(start, end, closeMode, quiet) }
  }

  predicate HonestMode(serialized: bool, mode: uint8) {
    mode == MODE_UNSET || (serialized <==> mode == MODE_KERNEL_SERIALIZED)
  }

  /** Bursts are disjoint and in order, and no record lies about its mode. */
  ghost predicate Orderly(h: seq<Burst>) {
    && (forall i :: 0 <= i < |h| && h[i].closes ==> h[i].start <= h[i].end)
    && (forall i :: 0 <= i < |h| ==>
          HonestMode(h[i].serialized, h[i].openMode) && HonestMode(h[i].serialized, h[i].closeMode))
    && (forall i, j :: 0 <= i < j < |h| ==> h[i].closes && h[i].end < h[j].start)
  }

  /** Burst i promises to stay quiet up to or past the start of burst j: for ever, or for a
      number of milliseconds past its own end. A promise past the end of time is none. */
  ghost predicate Overpromises(h: seq<Burst>, i: nat, j: nat)
    requires i < |h| && j < |h|
  {
    && h[i].end != 0 && h[i].quiet != 0
    && (h[i].quiet == 0xFFFF_FFFF
        || h[j].start <= h[i].end + h[i].quiet * 1_000_000 < 0x1_0000_0000_0000_0000)
  }

  /** A quiet promise is kept, strictly, by every serialized burst after it, seen or not. */
  ghost predicate PromisesKept(h: seq<Burst>) {
    forall i, j :: 0 <= i < j < |h| && h[j].serialized ==> !Overpromises(h, i, j)
  }

  ghost predicate Truthful(h: seq<Burst>) {
    Orderly(h) && PromisesKept(h)
  }

  // ----- What was delivered.

  /** The k-th record ever sent for a process is burst k/2's open record (k even) or
      its close record (k odd). */
  datatype Delivery = Delivery(index: nat, lost: uint64)
  {
    function Burst(): nat { index / 2 }

    predicate IsClose() { index % 2 == 1 }
  }

  ghost predicate Sent(h: seq<Burst>, d: Delivery) {
    d.Burst() < |h| && (d.IsClose() ==> h[d.Burst()].closes)
  }

  /** The k-th record ever sent reads as closed: a close record, of a burst that did not
      end at time zero, which reads as never closed. */
  ghost predicate ReadsClosed(h: seq<Burst>, k: nat) {
    k % 2 == 1 && k / 2 < |h| && h[k / 2].end != 0
  }

  /** Between a record that reads as closed and a later one lies a whole serialized burst
      neither speaks of. */
  ghost predicate Swallows(h: seq<Burst>, prev: int, d: Delivery) {
    0 <= prev && ReadsClosed(h, prev) && exists j :: prev / 2 < j < d.Burst() && j < |h| && h[j].serialized
  }

  /** The next delivery after one with index prev (-1 before the first): later in the
      sent order, and flagged if the records missing in between swallow a serialized burst. */
  ghost predicate Follows(h: seq<Burst>, prev: int, d: Delivery) {
    prev < d.index && (Swallows(h, prev, d) ==> d.lost > 0)
  }

  /** Flagging every hole is more than enough. */
  lemma FlaggedFollows(h: seq<Burst>, prev: int, d: Delivery)
    requires prev < d.index && (0 <= prev && prev + 1 < d.index ==> d.lost > 0)
    ensures Follows(h, prev, d)
  {
  }

  function LastIndex(ds: seq<Delivery>): int {
    if ds == [] then -1 else ds[|ds| - 1].index
  }

  /** Delivered in sent order, with every hole that swallows a serialized burst flagged on
      the record after it. */
  ghost predicate InOrder(h: seq<Burst>, ds: seq<Delivery>) {
    AllSent(h, ds) && Chained(h, ds)
  }

  ghost predicate AllSent(h: seq<Burst>, ds: seq<Delivery>) {
    forall k :: 0 <= k < |ds| ==> Sent(h, ds[k])
  }

  ghost predicate Chained(h: seq<Burst>, ds: seq<Delivery>) {
    ds == [] || (Chained(h, ds[..|ds| - 1]) && Follows(h, LastIndex(ds[..|ds| - 1]), ds[|ds| - 1]))
  }

  function RecordOf(h: seq<Burst>, d: Delivery, pid: uint32): Record
    requires d.Burst() < |h|
  {
    var b := h[d.Burst()];
    if d.IsClose() then Record(pid, b.start, b.end, b.closeMode, d.lost, b.quiet)
    else Record(pid, b.start, 0, b.openMode, d.lost, b.openQuiet)
  }

  // ----- Runs of the whole store, every process mixed.

  function Run(rs: seq<Record>, maxPerPID: nat, maxPIDs: nat): Histories
    requires maxPerPID >= 1
  {
    if rs == [] then map[]
    else AddRecord(Run(rs[..|rs| - 1], maxPerPID, maxPIDs), rs[|rs| - 1], maxPerPID, maxPIDs)
  }

  function OfProcess(rs: seq<Record>, pid: uint32): seq<Record> {
    if rs == [] then []
    else if rs[|rs| - 1].pid == pid then OfProcess(rs[..|rs| - 1], pid) + [rs[|rs| - 1]]
    else OfProcess(rs[..|rs| - 1], pid)
  }

  function Records(h: seq<Burst>, ds: seq<Delivery>, pid: uint32): seq<Record>
    requires forall k :: 0 <= k < |ds| ==> ds[k].Burst() < |h|
  {
    seq(|ds|, k requires 0 <= k < |ds| => RecordOf(h, ds[k], pid))
  }

  // ----- The invariant that links the store to the history.

  /** A held window is one of burst b's two records. */
  ghost predicate Stands(h: seq<Burst>, w: Window, b: nat)
    requires b < |h|
  {
    w == h[b].OpenWindow() || (h[b].closes && w == h[b].CloseWindow())
  }

  /** A held window is a record of some burst up to last. */
  ghost predicate Known(h: seq<Burst>, last: nat, w: Window)
    requires last < |h|
  {
    exists b :: 0 <= b <= last && Stands(h, w, b)
  }

  ghost predicate AllKnown(h: seq<Burst>, last: nat, ws: seq<Window>)
    requires last < |h|
  {
    forall w :: w in ws ==> Known(h, last, w)
  }

  /** An open window stands before an instant with nothing held in between. */
  ghost predicate Shadowed(ws: seq<Window>, t: uint64) {
    exists i :: 0 <= i < |ws| && ShadowedBy(ws, i, t)
  }

  ghost predicate ShadowedBy(ws: seq<Window>, i: nat, t: uint64)
    requires i < |ws|
  {
    && ws[i].Open() && ws[i].startNs < t
    && (forall w :: w in ws ==> w.startNs <= ws[i].startNs || t < w.startNs)
  }

  /** Burst b is held, or was over before coverage began, or lies in an open window's shadow. */
  ghost predicate Accounted(h: seq<Burst>, ws: seq<Window>, cov: uint64, b: nat)
    requires b < |h|
  {
    HoldsStart(ws, h[b].start) || (h[b].closes && h[b].end < cov) || Shadowed(ws, h[b].start)
  }

  /** prev is the index of the latest delivery: every serialized burst up to its own is
      accounted for, and its own is held as it reads. */
  ghost predicate Linked(h: seq<Burst>, s: WindowSet, prev: nat)
    requires prev / 2 < |h|
  {
    var last := prev / 2;
    && s.haveCoverage
    && Ordered(s.wins)
    && s.coverageStartNs <= h[last].start
    && AllKnown(h, last, s.wins)
    && HoldsStart(s.wins, h[last].start)
    && (HoldsOpen(s.wins, h[last].start) <==> !ReadsClosed(h, prev))
    && (forall b :: 0 <= b < last && h[b].serialized ==> Accounted(h, s.wins, s.coverageStartNs, b))
  }

  ghost predicate HoldsOpen(ws: seq<Window>, startNs: uint64) {
    exists i :: 0 <= i < |ws| && ws[i].startNs == startNs && ws[i].Open()
  }

  /** The state before a delivery: linked to an earlier record, or still empty. */
  ghost predicate Ready(h: seq<Burst>, s: WindowSet, prev: int) {
    if prev < 0 then prev == -1 && s == EMPTY_SET
    else prev / 2 < |h| && Linked(h, s, prev)
  }

  lemma HoldsWhenIn(ws: seq<Window>, w: Window)
    requires w in ws
    ensures HoldsStart(ws, w.startNs)
  {
    var i :| 0 <= i < |ws| && ws[i] == w;
    assert ws[i].startNs == w.startNs;
  }

  lemma WindowAt(ws: seq<Window>, startNs: uint64) returns (w: Window)
    requires HoldsStart(ws, startNs)
    ensures w in ws && w.startNs == startNs
  {
    var i :| 0 <= i < |ws| && ws[i].startNs == startNs;
    w := ws[i];
  }

  lemma StartOrder(h: seq<Burst>, b: nat, c: nat)
    requires Orderly(h) && b < |h| && c < |h|
    ensures h[b].start < h[c].start <==> b < c
    ensures b < c ==> h[b].closes && h[b].end < h[c].start
  {
  }

  lemma BurstOf(h: seq<Burst>, last: nat, w: Window) returns (b: nat)
    requires last < |h| && Known(h, last, w)
    ensures b <= last && Stands(h, w, b) && w.startNs == h[b].start
  {
    b :| 0 <= b <= last && Stands(h, w, b);
  }

  lemma KnownStart(h: seq<Burst>, last: nat, w: Window)
    requires Orderly(h) && last < |h| && Known(h, last, w)
    ensures w.startNs <= h[last].start
  {
    var b := BurstOf(h, last, w);
    StartOrder(h, b, last);
  }

  /** What is left of a history after the bound drops its oldest windows: a dropped
      burst, or one in a dropped window's shadow, ended before the oldest one kept began. */
  lemma BoundedAccounts(h: seq<Burst>, ws: seq<Window>, cov: uint64, maxPerPID: nat, last: nat, b: nat)
    requires Orderly(h) && last < |h| && maxPerPID >= 1 && b <= last
    requires Ordered(ws) && AllKnown(h, last, ws)
    requires Accounted(h, ws, cov, b)
    ensures var r := Bounded(ws, cov, maxPerPID); Accounted(h, r.wins, r.coverageStartNs, b)
  {
    if |ws| > maxPerPID {
      var cut := |ws| - maxPerPID;
      var kept := ws[cut..];
      var c := BurstOf(h, last, ws[cut]);
      StartOrder(h, b, c);
      if HoldsStart(ws, h[b].start) {
        var i :| 0 <= i < |ws| && ws[i].startNs == h[b].start;
        if i >= cut {
          assert kept[i - cut].startNs == h[b].start;
        }
      } else if Shadowed(ws, h[b].start) {
        ShadowBounded(ws, cut, h[b].start);
      }
    }
  }

  lemma ShadowBounded(ws: seq<Window>, cut: nat, t: uint64)
    requires Ordered(ws) && cut < |ws| && Shadowed(ws, t)
    ensures Shadowed(ws[cut..], t) || t < ws[cut].startNs
  {
    var i :| 0 <= i < |ws| && ShadowedBy(ws, i, t);
    if i >= cut {
      assert ws[cut..][i - cut] == ws[i];
      assert ShadowedBy(ws[cut..], i - cut, t);
    } else {
      assert ws[cut] in ws;
    }
  }

  lemma BoundedHolds(ws: seq<Window>, cov: uint64, maxPerPID: nat, startNs: uint64)
    requires Ordered(ws) && maxPerPID >= 1 && HoldsStart(ws, startNs) && forall w :: w in ws ==> w.startNs <= startNs
    ensures HoldsStart(Bounded(ws, cov, maxPerPID).wins, startNs)
    ensures HoldsOpen(ws, startNs) <==> HoldsOpen(Bounded(ws, cov, maxPerPID).wins, startNs)
  {
    var n := |ws| - 1;
    var i :| 0 <= i < |ws| && ws[i].startNs == startNs;
    assert ws[n] in ws;
    assert i == n;
    var kept := Bounded(ws, cov, maxPerPID).wins;
    assert kept[|kept| - 1] == ws[n];
    assert forall k :: 0 <= k < |kept| ==> kept[k] in ws;
  }

  lemma BoundedLinked(h: seq<Burst>, ws: seq<Window>, cov: uint64, maxPerPID: nat, prev: nat)
    requires Orderly(h) && prev / 2 < |h| && maxPerPID >= 1
    requires Linked(h, WindowSet(ws, cov, true), prev)
    ensures Linked(h, Bounded(ws, cov, maxPerPID), prev)
  {
    var r, last := Bounded(ws, cov, maxPerPID), prev / 2;
    forall b | 0 <= b < last && h[b].serialized
      ensures Accounted(h, r.wins, r.coverageStartNs, b)
    {
      BoundedAccounts(h, ws, cov, maxPerPID, last, b);
    }
    forall w | w in ws ensures w.startNs <= h[last].start {
      KnownStart(h, last, w);
    }
    BoundedHolds(ws, cov, maxPerPID, h[last].start);
  }

  lemma KnownLater(h: seq<Burst>, last: nat, later: nat, ws: seq<Window>)
    requires last <= later < |h| && AllKnown(h, last, ws)
    ensures AllKnown(h, later, ws)
  {
    forall w | w in ws ensures Known(h, later, w) {
      var b := BurstOf(h, last, w);
    }
  }

  lemma RestartBefore(h: seq<Burst>, s: WindowSet, prev: int, d: Delivery, pid: uint32)
    requires Orderly(h) && Ready(h, s, prev)
    requires Sent(h, d) && Follows(h, prev, d)
    ensures Restarted(s, RecordOf(h, d, pid)) <= h[d.Burst()].start
  {
    if prev >= 0 {
      StartOrder(h, prev / 2, d.Burst());
    }
  }

  /** A shadow survives a later window. */
  lemma ShadowInserted(ws: seq<Window>, nw: Window, t: uint64)
    requires Ordered(ws) && !HoldsStart(ws, nw.startNs) && Shadowed(ws, t) && t < nw.startNs
    ensures Shadowed(InsertByStart(ws, nw), t)
  {
    InsertKeepsOrder(ws, nw);
    var i :| 0 <= i < |ws| && ShadowedBy(ws, i, t);
    var r := InsertByStart(ws, nw);
    assert ws[i] in r;
    var k :| 0 <= k < |r| && r[k] == ws[i];
    assert ShadowedBy(r, k, t);
  }

  /** A burst after everything held is in the shadow of the latest window, if that is open. */
  lemma ShadowCast(ws: seq<Window>, startNs: uint64, t: uint64)
    requires HoldsOpen(ws, startNs) && startNs < t && forall w :: w in ws ==> w.startNs <= startNs
    ensures Shadowed(ws, t)
  {
    var i :| 0 <= i < |ws| && ws[i].startNs == startNs && ws[i].Open();
    assert ShadowedBy(ws, i, t);
  }

  /** Every serialized burst before a new one is accounted for once its record is in:
      covered by a restart, as before, or in the shadow the last record casts. */
  lemma InsertAccounts(h: seq<Burst>, s: WindowSet, prev: int, d: Delivery, pid: uint32, b: nat)
    requires Orderly(h) && Ready(h, s, prev)
    requires Sent(h, d) && Follows(h, prev, d) && b < d.Burst() && h[b].serialized
    requires !HoldsStart(s.wins, h[d.Burst()].start)
    ensures var w := RecordOf(h, d, pid);
      Accounted(h, InsertByStart(s.wins, w.ToWindow()), Restarted(s, w), b)
  {
    var w := RecordOf(h, d, pid);
    var ws := InsertByStart(s.wins, w.ToWindow());
    StartOrder(h, b, d.Burst());
    if w.lost == 0 && prev >= 0 {
      InsertKeepsOrder(s.wins, w.ToWindow());
      if HoldsStart(s.wins, h[b].start) {
        var held := WindowAt(s.wins, h[b].start);
        HoldsWhenIn(ws, held);
      } else {
        if b > prev / 2 {
          CastByLast(h, s, prev, d, b);
        }
        if Shadowed(s.wins, h[b].start) {
          ShadowInserted(s.wins, w.ToWindow(), h[b].start);
        }
      }
    }
  }

  lemma CastByLast(h: seq<Burst>, s: WindowSet, prev: nat, d: Delivery, b: nat)
    requires Orderly(h) && prev / 2 < |h| && Linked(h, s, prev)
    requires Follows(h, prev, d) && d.lost == 0 && prev / 2 < b < d.Burst() && b < |h| && h[b].serialized
    ensures Shadowed(s.wins, h[b].start)
  {
    assert Swallows(h, prev, d) || !ReadsClosed(h, prev);
    StartOrder(h, prev / 2, b);
    forall w | w in s.wins ensures w.startNs <= h[prev / 2].start {
      KnownStart(h, prev / 2, w);
    }
    ShadowCast(s.wins, h[prev / 2].start, h[b].start);
  }

  lemma ReadsAsSent(h: seq<Burst>, d: Delivery, pid: uint32)
    requires Sent(h, d)
    ensures RecordOf(h, d, pid).ToWindow().Open() <==> !ReadsClosed(h, d.index)
  {
  }

  /** A record for a burst not yet held is inserted. */
  lemma InsertLinked(h: seq<Burst>, s: WindowSet, prev: int, d: Delivery, pid: uint32, maxPerPID: nat)
    requires Orderly(h) && maxPerPID >= 1 && Ready(h, s, prev)
    requires Sent(h, d) && Follows(h, prev, d)
    requires !HoldsStart(s.wins, h[d.Burst()].start)
    ensures Linked(h, AddToSet(s, RecordOf(h, d, pid), maxPerPID), d.index)
  {
    var w := RecordOf(h, d, pid);
    var nw := w.ToWindow();
    var last := d.Burst();
    var ws := InsertByStart(s.wins, nw);
    InsertKeepsOrder(s.wins, nw);
    RestartBefore(h, s, prev, d, pid);
    assert Stands(h, nw, last);
    if prev >= 0 {
      KnownLater(h, prev / 2, last, s.wins);
    }
    assert AllKnown(h, last, ws);
    HoldsAsRead(h, ws, d, pid);
    forall b | 0 <= b < last && h[b].serialized
      ensures Accounted(h, ws, Restarted(s, w), b)
    {
      InsertAccounts(h, s, prev, d, pid, b);
    }
    BoundedLinked(h, ws, Restarted(s, w), maxPerPID, d.index);
  }

  lemma HoldsAsRead(h: seq<Burst>, ws: seq<Window>, d: Delivery, pid: uint32)
    requires Sent(h, d) && Ordered(ws) && RecordOf(h, d, pid).ToWindow() in ws
    ensures HoldsStart(ws, h[d.Burst()].start)
    ensures HoldsOpen(ws, h[d.Burst()].start) <==> !ReadsClosed(h, d.index)
  {
    var nw := RecordOf(h, d, pid).ToWindow();
    var i :| 0 <= i < |ws| && ws[i] == nw;
    assert ws[i].startNs == h[d.Burst()].start;
    assert nw.Open() <==> !ReadsClosed(h, d.index) by {
      ReadsAsSent(h, d, pid);
    }
  }

  lemma SupersedeKnown(h: seq<Burst>, last: nat, ws: seq<Window>, nw: Window)
    requires last < |h| && AllKnown(h, last, ws) && Known(h, last, nw)
    ensures AllKnown(h, last, Supersede(ws, nw))
  {
    forall w | w in Supersede(ws, nw) ensures Known(h, last, w) {
      var i :| 0 <= i < |ws| && Supersede(ws, nw)[i] == w;
      assert w == nw || w == ws[i];
    }
  }

  lemma SupersedeHolds(ws: seq<Window>, nw: Window, startNs: uint64)
    requires HoldsStart(ws, startNs)
    ensures HoldsStart(Supersede(ws, nw), startNs)
  {
    var i :| 0 <= i < |ws| && ws[i].startNs == startNs;
    assert Supersede(ws, nw)[i].startNs == startNs;
  }

  /** Superseding a window leaves the shadows of earlier ones. */
  lemma ShadowSuperseded(ws: seq<Window>, nw: Window, t: uint64)
    requires Ordered(ws) && Shadowed(ws, t) && t <= nw.startNs
    ensures Shadowed(Supersede(ws, nw), t)
  {
    var i :| 0 <= i < |ws| && ShadowedBy(ws, i, t);
    var r := Supersede(ws, nw);
    assert r[i] == ws[i];
    forall w | w in r ensures w.startNs <= r[i].startNs || t < w.startNs {
      var k :| 0 <= k < |r| && r[k] == w;
      assert ws[k] in ws;
    }
    assert ShadowedBy(r, i, t);
  }

  /** A burst held before its own record arrives can only be the latest one. */
  lemma HeldIsLatest(h: seq<Burst>, s: WindowSet, prev: nat, d: Delivery)
    requires Orderly(h) && Ready(h, s, prev) && Sent(h, d) && Follows(h, prev, d)
    requires HoldsStart(s.wins, h[d.Burst()].start)
    ensures d.Burst() == prev / 2 && d.index == prev + 1
  {
    var last := d.Burst();
    var held := WindowAt(s.wins, h[last].start);
    KnownStart(h, prev / 2, held);
    StartOrder(h, prev / 2, last);
  }

  lemma SupersedeHoldsAsRead(h: seq<Burst>, s: WindowSet, prev: nat, d: Delivery, pid: uint32)
    requires Orderly(h) && Ready(h, s, prev) && Sent(h, d) && d.Burst() == prev / 2 && d.index == prev + 1
    ensures var r := Supersede(s.wins, RecordOf(h, d, pid).ToWindow());
      HoldsStart(r, h[d.Burst()].start) && (HoldsOpen(r, h[d.Burst()].start) <==> !ReadsClosed(h, d.index))
  {
    var nw := RecordOf(h, d, pid).ToWindow();
    SupersedeHolds(s.wins, nw, h[d.Burst()].start);
    ReadsAsSent(h, d, pid);
    assert prev % 2 == 0 && HoldsOpen(s.wins, h[prev / 2].start);
    var i :| 0 <= i < |s.wins| && s.wins[i].startNs == h[prev / 2].start && s.wins[i].Open();
    assert Supersede(s.wins, nw)[i] == if nw.Open() then s.wins[i] else nw;
  }

  /** A record for a burst already held: the close supersedes its own open record. */
  lemma SupersedeLinked(h: seq<Burst>, s: WindowSet, prev: nat, d: Delivery, pid: uint32, maxPerPID: nat)
    requires Orderly(h) && maxPerPID >= 1 && Ready(h, s, prev)
    requires Sent(h, d) && Follows(h, prev, d)
    requires HoldsStart(s.wins, h[d.Burst()].start)
    ensures Linked(h, AddToSet(s, RecordOf(h, d, pid), maxPerPID), d.index)
  {
    var w := RecordOf(h, d, pid);
    var nw := w.ToWindow();
    var last := d.Burst();
    HeldIsLatest(h, s, prev, d);
    assert Stands(h, nw, last);
    SupersedeKnown(h, last, s.wins, nw);
    SupersedeHoldsAsRead(h, s, prev, d, pid);
    RestartBefore(h, s, prev, d, pid);
    forall b | 0 <= b < last && h[b].serialized
      ensures Accounted(h, Supersede(s.wins, nw), Restarted(s, w), b)
    {
      StartOrder(h, b, last);
      if HoldsStart(s.wins, h[b].start) {
        SupersedeHolds(s.wins, nw, h[b].start);
      } else if Shadowed(s.wins, h[b].start) {
        ShadowSuperseded(s.wins, nw, h[b].start);
      }
    }
  }

  lemma StepLinked(h: seq<Burst>, s: WindowSet, prev: int, d: Delivery, pid: uint32, maxPerPID: nat)
    requires Orderly(h) && maxPerPID >= 1
    requires Sent(h, d) && Follows(h, prev, d) && Ready(h, s, prev)
    ensures Linked(h, AddToSet(s, RecordOf(h, d, pid), maxPerPID), d.index)
  {
    if HoldsStart(s.wins, h[d.Burst()].start) {
      SupersedeLinked(h, s, prev, d, pid, maxPerPID);
    } else {
      InsertLinked(h, s, prev, d, pid, maxPerPID);
    }
  }

  /** Over every run of the store, whatever the other processes send: a process the
      store admitted has a history linked to what really happened. */
  lemma {:induction false} RunLinked(h: seq<Burst>, ds: seq<Delivery>, pid: uint32, rs: seq<Record>, maxPerPID: nat,
                                     maxPIDs: nat)
    requires Orderly(h) && InOrder(h, ds) && maxPerPID >= 1
    requires OfProcess(rs, pid) == Records(h, ds, pid)
    ensures var run := Run(rs, maxPerPID, maxPIDs);
      pid in run ==> ds != [] && Linked(h, run[pid], ds[|ds| - 1].index)
    ensures pid !in Run(rs, maxPerPID, maxPIDs) && ds != [] ==> |Run(rs, maxPerPID, maxPIDs)| >= maxPIDs
  {
    if rs != [] {
      var n := |rs| - 1;
      var before := Run(rs[..n], maxPerPID, maxPIDs);
      var w := rs[n];
      if w.pid != pid {
        RunLinked(h, ds, pid, rs[..n], maxPerPID, maxPIDs);
        RunGrows(before, w, maxPerPID, maxPIDs);
      } else {
        var m := |ds| - 1;
        var prior := ds[..m];
        assert |OfProcess(rs, pid)| == |OfProcess(rs[..n], pid)| + 1 == |ds|;
        assert w == OfProcess(rs, pid)[m] == RecordOf(h, ds[m], pid);
        assert OfProcess(rs[..n], pid) == OfProcess(rs, pid)[..m] == Records(h, prior, pid);
        RunLinked(h, prior, pid, rs[..n], maxPerPID, maxPIDs);
        if pid in before {
          StepLinked(h, before[pid], LastIndex(prior), ds[m], pid, maxPerPID);
        } else if prior == [] {
          StepLinked(h, EMPTY_SET, -1, ds[m], pid, maxPerPID);
        }
      }
    }
  }

  lemma RunGrows(h: Histories, w: Record, maxPerPID: nat, maxPIDs: nat)
    requires maxPerPID >= 1
    ensures |h| <= |AddRecord(h, w, maxPerPID, maxPIDs)|
  {
    var r := AddRecord(h, w, maxPerPID, maxPIDs);
    assert r.Keys == h.Keys || r.Keys == h.Keys + {w.pid};
  }

  // ----- The disclosure theorems.

  /** Coverage ends at an open window's start or at some closed window's reach. */
  lemma CoverageWitness(s: WindowSet) returns (k: nat)
    requires Ordered(s.wins) && CoverageEnd(s).Some?
    ensures k < |s.wins|
    ensures CoverageEnd(s).value == if s.wins[k].Open() then s.wins[k].startNs else s.wins[k].Reach()
  {
    if AnyOpen(s.wins, s.coverageStartNs) {
      k := ScanCapped(s.wins, s.coverageStartNs, None);
    } else {
      ScanFurthest(s.wins, s.coverageStartNs, None);
      var i :| Eligible(s.wins, s.coverageStartNs, i) && CoverageEnd(s).value == s.wins[i].Reach();
      k := i;
    }
  }

  /** No serialized burst later than the last delivered one starts inside coverage. */
  lemma FutureOutside(h: seq<Burst>, s: WindowSet, prev: nat, j: nat)
    requires Truthful(h) && prev / 2 < j < |h| && h[j].serialized && Linked(h, s, prev)
    requires CoverageEnd(s).Some?
    ensures CoverageEnd(s).value < h[j].start
  {
    var k := CoverageWitness(s);
    var b := BurstOf(h, prev / 2, s.wins[k]);
    StartOrder(h, b, j);
    assert !Overpromises(h, b, j);
  }

  /** "Not serialized" is never wrong: over every run, however many records were lost,
      evicted or not sent yet, an interval so classified meets no kernel-serialized
      burst of the true history. */
  lemma DisclosureSound(h: seq<Burst>, ds: seq<Delivery>, pid: uint32, rs: seq<Record>,
                        maxPerPID: nat, maxPIDs: nat, from: uint64, to: uint64, j: nat)
    requires Truthful(h) && InOrder(h, ds) && maxPerPID >= 1
    requires OfProcess(rs, pid) == Records(h, ds, pid)
    requires Classify(Run(rs, maxPerPID, maxPIDs), pid, from, to) == NotSerialized
    requires j < |h| && h[j].serialized
    ensures !h[j].Intersects(from, to)
  {
    RunLinked(h, ds, pid, rs, maxPerPID, maxPIDs);
    var s := Run(rs, maxPerPID, maxPIDs)[pid];
    var last := ds[|ds| - 1].Burst();
    if j > last {
      FutureOutside(h, s, ds[|ds| - 1].index, j);
    } else if HoldsStart(s.wins, h[j].start) {
      HeldOutside(h, s, last, j, from, to);
    } else if Shadowed(s.wins, h[j].start) {
      ShadowOutside(s.wins, h[j].start, from, to);
    } else {
      assert Accounted(h, s.wins, s.coverageStartNs, j);
    }
  }

  /** An interval that no opaque window meets ends before anything in a shadow. */
  lemma ShadowOutside(ws: seq<Window>, t: uint64, from: uint64, to: uint64)
    requires Shadowed(ws, t) && !OverlapsOpaque(ws, from, to)
    ensures to < t
  {
    var i :| 0 <= i < |ws| && ShadowedBy(ws, i, t);
    assert !ws[i].Intersects(from, to);
  }

  /** A held serialized burst is either seen as one or opaque, so an interval that is
      neither does not touch it. */
  lemma HeldOutside(h: seq<Burst>, s: WindowSet, last: nat, j: nat, from: uint64, to: uint64)
    requires Orderly(h) && j <= last < |h| && h[j].serialized
    requires AllKnown(h, last, s.wins) && HoldsStart(s.wins, h[j].start)
    requires !OverlapsBurst(s.wins, from, to) && !OverlapsOpaque(s.wins, from, to)
    ensures !h[j].Intersects(from, to)
  {
    var i :| 0 <= i < |s.wins| && s.wins[i].startNs == h[j].start;
    assert !s.wins[i].Intersects(from, to)
      || (!s.wins[i].Open() && s.wins[i].mode != MODE_UNSET && !s.wins[i].Serializes());
    var b := BurstOf(h, last, s.wins[i]);
    StartOrder(h, b, j);
    StartOrder(h, j, b);
  }

  /** "Serialized" is never wrong either: it names a real serialized burst. */
  lemma SerializedSound(h: seq<Burst>, ds: seq<Delivery>, pid: uint32, rs: seq<Record>,
                        maxPerPID: nat, maxPIDs: nat, from: uint64, to: uint64)
    requires Orderly(h) && InOrder(h, ds) && maxPerPID >= 1
    requires OfProcess(rs, pid) == Records(h, ds, pid)
    requires Classify(Run(rs, maxPerPID, maxPIDs), pid, from, to) == Serialized
    ensures exists j :: 0 <= j < |h| && h[j].serialized && h[j].Intersects(from, to)
  {
    RunLinked(h, ds, pid, rs, maxPerPID, maxPIDs);
    var s := Run(rs, maxPerPID, maxPIDs)[pid];
    var last := ds[|ds| - 1].Burst();
    var i :| 0 <= i < |s.wins| && s.wins[i].Intersects(from, to)
      && !s.wins[i].Open() && s.wins[i].mode != MODE_UNSET && s.wins[i].Serializes();
    var b := BurstOf(h, last, s.wins[i]);
    assert h[b].serialized && h[b].Intersects(from, to);
  }
}
