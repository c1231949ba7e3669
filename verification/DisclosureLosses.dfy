/** What the disclosure needs of its producer and its transport, exactly: which promises
    must be strict, which losses must be flagged, and what the ways of losing a record
    that nobody flags do to it (gpu/serialization.go, gpuprobe/consumer.go). */
module DisclosureLosses {
  import opened Machine
  import opened Serialization
  import opened Disclosure
  import opened WindowTransport
  import opened DisclosureLimits
  import opened Exposure
  import Probe

  // ----- What the producer's promises must keep.

  /** An instant no window touches, with a window that proves something past it, is
      answered "not serialized". */
  lemma InstantAnswered(s: WindowSet, t: uint64, k: nat)
    requires s.haveCoverage && Ordered(s.wins) && s.coverageStartNs <= t && k < |s.wins|
    requires forall i :: 0 <= i < |s.wins| ==> !s.wins[i].Intersects(t, t)
    requires Eligible(s.wins, s.coverageStartNs, k) && (s.wins[k].Open() || t <= s.wins[k].Reach())
    ensures Answer(s, t, t) == NotSerialized
  {
    CoverageEndExact(s);
  }

  /** A run of the store misleads: some interval is answered "not serialized" although a
      serialized burst of the true history meets it. */
  ghost predicate Misled(h: seq<Burst>, ds: seq<Delivery>, pid: uint32, maxPerPID: nat, maxPIDs: nat,
                         from: uint64, to: uint64, j: nat)
    requires maxPerPID >= 1 && forall k :: 0 <= k < |ds| ==> ds[k].Burst() < |h|
  {
    WrongFor(h, Run(Records(h, ds, pid), maxPerPID, maxPIDs), pid, from, to, j)
  }

  lemma {:induction false} AllOfProcess(rs: seq<Record>, pid: uint32)
    requires forall r :: r in rs ==> r.pid == pid
    ensures OfProcess(rs, pid) == rs
  {
    if rs != [] {
      AllOfProcess(rs[..|rs| - 1], pid);
      assert rs == rs[..|rs| - 1] + [rs[|rs| - 1]];
    }
  }

  function Close(b: nat, lost: uint64): Delivery { Delivery(2 * b + 1, lost) }

  lemma CloseRecord(h: seq<Burst>, b: nat, lost: uint64, pid: uint32)
    requires Orderly(h) && b < |h| && h[b].closes
    ensures Close(b, lost).Burst() == b && Close(b, lost).IsClose() && Sent(h, Close(b, lost))
    ensures RecordOf(h, Close(b, lost), pid).ToWindow() == h[b].CloseWindow()
    ensures !RecordOf(h, Close(b, lost), pid).Inverted()
  {
  }

  /** Any promise that is not strict misleads: the run that delivers only the close that
      made it answers "not serialized" at the start of the serialized burst it forgot. */
  lemma StrictPromiseNeeded(h: seq<Burst>, i: nat, j: nat, pid: uint32, maxPerPID: nat, maxPIDs: nat)
    requires Orderly(h) && i < j < |h| && h[j].serialized && Overpromises(h, i, j)
    requires maxPerPID >= 1 && maxPIDs >= 1
    ensures Close(i, 0).Burst() < |h|
    ensures InOrder(h, [Close(i, 0)])
    ensures Misled(h, [Close(i, 0)], pid, maxPerPID, maxPIDs, h[j].start, h[j].start, j)
  {
    var d := Close(i, 0);
    CloseRecord(h, i, 0, pid);
    FlaggedFollows(h, -1, d);
    assert [d][..0] == [] && Chained(h, []);
    var r := RecordOf(h, d, pid);
    assert Records(h, [d], pid) == [r] && [r][..0] == [];
    RunAnswers([r], pid, maxPerPID, maxPIDs, h[j].start, h[j].start);
    var s := Alone([r], maxPerPID);
    assert s == WindowSet([h[i].CloseWindow()], h[i].start, true);
    InstantAnswered(s, h[j].start, 0);
  }

  /** Some run that loses nothing unflagged misleads. */
  ghost predicate CanMislead(h: seq<Burst>) {
    exists ds, pid, maxPerPID, maxPIDs, from, to, j ::
      InOrder(h, ds) && maxPerPID >= 1 && Misled(h, ds, pid, maxPerPID, maxPIDs, from, to, j)
  }

  lemma NeverMisled(h: seq<Burst>, ds: seq<Delivery>, pid: uint32, maxPerPID: nat, maxPIDs: nat,
                    from: uint64, to: uint64, j: nat)
    requires Truthful(h) && InOrder(h, ds) && maxPerPID >= 1
    ensures !Misled(h, ds, pid, maxPerPID, maxPIDs, from, to, j)
  {
    if Misled(h, ds, pid, maxPerPID, maxPIDs, from, to, j) {
      AllOfProcess(Records(h, ds, pid), pid);
      DisclosureSound(h, ds, pid, Records(h, ds, pid), maxPerPID, maxPIDs, from, to, j);
    }
  }

  /** Strictness is exactly what the disclosure needs of the promises: an orderly history
      never misleads, under any in-order delivery, if and only if every promise is kept
      strictly by the serialized bursts after it. */
  lemma PromiseIff(h: seq<Burst>)
    requires Orderly(h)
    ensures PromisesKept(h) <==> !CanMislead(h)
  {
    if PromisesKept(h) {
      forall ds, pid, maxPerPID, maxPIDs, from, to, j | InOrder(h, ds) && maxPerPID >= 1
        ensures !Misled(h, ds, pid, maxPerPID, maxPIDs, from, to, j)
      {
        NeverMisled(h, ds, pid, maxPerPID, maxPIDs, from, to, j);
      }
    } else {
      var i, j :| 0 <= i < j < |h| && h[j].serialized && Overpromises(h, i, j);
      StrictPromiseNeeded(h, i, j, 0, 1, 1);
    }
  }

  // ----- Exactly which losses must be flagged.

  /** Delivered in sent order, flagged or not. */
  ghost predicate Rising(ds: seq<Delivery>) {
    ds == [] || (Rising(ds[..|ds| - 1]) && LastIndex(ds[..|ds| - 1]) < ds[|ds| - 1].index)
  }

  /** A store of some size is misled by a delivery. */
  ghost predicate Misleads(h: seq<Burst>, ds: seq<Delivery>)
    requires AllSent(h, ds)
  {
    exists pid, maxPerPID: nat, maxPIDs: nat, from, to, j: nat ::
      maxPerPID >= 1 && Misled(h, ds, pid, maxPerPID, maxPIDs, from, to, j)
  }

  /** Some moment of the delivery misleads. */
  ghost predicate MisleadsSomewhere(h: seq<Burst>, ds: seq<Delivery>)
    requires AllSent(h, ds)
  {
    exists n: nat :: n <= |ds| && Misleads(h, ds[..n])
  }

  lemma {:induction false} PrefixInOrder(h: seq<Burst>, ds: seq<Delivery>, n: nat)
    requires InOrder(h, ds) && n <= |ds|
    ensures InOrder(h, ds[..n])
  {
    if n < |ds| {
      assert ds[..|ds| - 1][..n] == ds[..n];
      PrefixInOrder(h, ds[..|ds| - 1], n);
    } else {
      assert ds[..n] == ds;
    }
  }

  /** A lone process's history after an in-order delivery. */
  lemma AloneLinked(h: seq<Burst>, ds: seq<Delivery>, pid: uint32, maxPerPID: nat)
    requires Orderly(h) && InOrder(h, ds) && ds != [] && maxPerPID >= 1
    ensures var s := Alone(Records(h, ds, pid), maxPerPID);
      Linked(h, s, LastIndex(ds)) && |s.wins| <= maxPerPID
  {
    var rs := Records(h, ds, pid);
    forall r | r in rs ensures r.pid == pid && !r.Inverted() {
      NotInverted(h, ds, pid, r);
    }
    AloneRuns(rs, pid, maxPerPID, 1);
    AllOfProcess(rs, pid);
    RunLinked(h, ds, pid, rs, maxPerPID, 1);
    AloneBounded(rs, maxPerPID);
  }

  lemma NotInverted(h: seq<Burst>, ds: seq<Delivery>, pid: uint32, r: Record)
    requires Orderly(h) && AllSent(h, ds) && r in Records(h, ds, pid)
    ensures r.pid == pid && !r.Inverted()
  {
    var k :| 0 <= k < |ds| && r == RecordOf(h, ds[k], pid);
    assert Sent(h, ds[k]);
  }

  lemma {:induction false} AloneBounded(rs: seq<Record>, maxPerPID: nat)
    requires maxPerPID >= 1
    ensures Ordered(Alone(rs, maxPerPID).wins) && |Alone(rs, maxPerPID).wins| <= maxPerPID
  {
    if rs != [] {
      AloneBounded(rs[..|rs| - 1], maxPerPID);
      AddKeepsOrder(Alone(rs[..|rs| - 1], maxPerPID), rs[|rs| - 1], maxPerPID);
    }
  }

  /** The newest window is the latest record's. */
  lemma NewestHeld(h: seq<Burst>, s: WindowSet, prev: nat)
    requires Orderly(h) && prev / 2 < |h| && Linked(h, s, prev) && ReadsClosed(h, prev)
    ensures s.wins != [] && s.wins[|s.wins| - 1] == h[prev / 2].CloseWindow()
  {
    var i :| 0 <= i < |s.wins| && s.wins[i].startNs == h[prev / 2].start;
    var n := |s.wins| - 1;
    assert s.wins[n] in s.wins && s.wins[i] in s.wins;
    KnownStart(h, prev / 2, s.wins[n]);
    assert i == n;
    var b := BurstOf(h, prev / 2, s.wins[n]);
    StartOrder(h, b, prev / 2);
    StartOrder(h, prev / 2, b);
  }

  /** In a store of two the last two windows are all there is. */
  lemma LastTwo(s: WindowSet, w: Record)
    requires s.haveCoverage && Ordered(s.wins) && 1 <= |s.wins| <= 2 && w.lost == 0
    requires s.wins[|s.wins| - 1].startNs < w.startNs && s.coverageStartNs <= s.wins[|s.wins| - 1].startNs
    ensures var r := AddToSet(s, w, 2);
      && r.wins == [s.wins[|s.wins| - 1], w.ToWindow()]
      && r.coverageStartNs <= s.wins[|s.wins| - 1].startNs
  {
    assert !HoldsStart(s.wins, w.startNs);
    assert InsertByStart(s.wins, w.ToWindow()) == s.wins + [w.ToWindow()];
  }

  lemma SwallowedInstant(h: seq<Burst>, s: WindowSet, i: nat, j: nat, k: nat, nw: Window)
    requires Orderly(h) && i < j < k < |h| && s.haveCoverage && s.coverageStartNs <= h[i].start && h[i].end != 0
    requires s.wins == [h[i].CloseWindow(), nw] && Stands(h, nw, k)
    ensures Answer(s, h[j].start, h[j].start) == NotSerialized
  {
    StartOrder(h, i, j);
    StartOrder(h, j, k);
    InstantAnswered(s, h[j].start, 1);
  }

  /** A hole that swallows a serialized burst unflagged misleads a store of two, at the
      start of the burst it swallowed. */
  lemma SwallowMisleads(h: seq<Burst>, ds: seq<Delivery>, d: Delivery, pid: uint32, j: nat)
    requires Orderly(h) && InOrder(h, ds) && ds != [] && Sent(h, d) && d.lost == 0
    requires ReadsClosed(h, LastIndex(ds)) && LastIndex(ds) / 2 < j < d.Burst() && h[j].serialized
    ensures AllSent(h, ds + [d])
    ensures Misled(h, ds + [d], pid, 2, 1, h[j].start, h[j].start, j)
  {
    var prev := LastIndex(ds);
    var i, k := prev / 2, d.Burst();
    var rs, r := Records(h, ds, pid), RecordOf(h, d, pid);
    var s := Alone(rs, 2);
    AloneLinked(h, ds, pid, 2);
    NewestHeld(h, s, prev);
    StartOrder(h, i, k);
    LastTwo(s, r);
    assert Stands(h, r.ToWindow(), k);
    SwallowedInstant(h, AddToSet(s, r, 2), i, j, k, r.ToWindow());
    SwallowAnswers(h, ds, d, pid, h[j].start);
  }

  lemma SwallowAnswers(h: seq<Burst>, ds: seq<Delivery>, d: Delivery, pid: uint32, t: uint64)
    requires Orderly(h) && AllSent(h, ds) && Sent(h, d)
    ensures AllSent(h, ds + [d])
    ensures Classify(Run(Records(h, ds + [d], pid), 2, 1), pid, t, t)
      == Answer(AddToSet(Alone(Records(h, ds, pid), 2), RecordOf(h, d, pid), 2), t, t)
  {
    var all := Records(h, ds + [d], pid);
    assert all == Records(h, ds, pid) + [RecordOf(h, d, pid)];
    AloneNext(Records(h, ds, pid), RecordOf(h, d, pid), 2);
    forall r | r in all ensures r.pid == pid && !r.Inverted() {
      NotInverted(h, ds + [d], pid, r);
    }
    RunAnswers(all, pid, 2, 1, t, t);
  }

  lemma NeverMisleads(h: seq<Burst>, ds: seq<Delivery>)
    requires Truthful(h) && InOrder(h, ds)
    ensures !Misleads(h, ds)
  {
    forall pid, maxPerPID: nat, maxPIDs: nat, from, to, j: nat | maxPerPID >= 1
      ensures !Misled(h, ds, pid, maxPerPID, maxPIDs, from, to, j)
    {
      NeverMisled(h, ds, pid, maxPerPID, maxPIDs, from, to, j);
    }
  }

  lemma LastMisleads(h: seq<Burst>, ds: seq<Delivery>, d: Delivery)
    requires Orderly(h) && InOrder(h, ds) && Sent(h, d) && LastIndex(ds) < d.index && !Follows(h, LastIndex(ds), d)
    ensures AllSent(h, ds + [d]) && Misleads(h, ds + [d])
  {
    var j :| LastIndex(ds) / 2 < j < d.Burst() && j < |h| && h[j].serialized;
    SwallowMisleads(h, ds, d, 0, j);
  }

  lemma WholeMisleads(h: seq<Burst>, ds: seq<Delivery>)
    requires AllSent(h, ds) && Misleads(h, ds)
    ensures MisleadsSomewhere(h, ds)
  {
    assert ds[..|ds|] == ds;
  }

  lemma EarlierMisleads(h: seq<Burst>, ds: seq<Delivery>, n: nat)
    requires AllSent(h, ds) && n <= |ds| && MisleadsSomewhere(h, ds[..n])
    ensures MisleadsSomewhere(h, ds)
  {
    var m: nat :| m <= n && Misleads(h, ds[..n][..m]);
    assert ds[..n][..m] == ds[..m];
  }

  lemma {:induction false} UnchainedMisleads(h: seq<Burst>, ds: seq<Delivery>)
    requires Orderly(h) && AllSent(h, ds) && Rising(ds) && !Chained(h, ds)
    ensures MisleadsSomewhere(h, ds)
  {
    var n := |ds| - 1;
    assert ds == ds[..n] + [ds[n]];
    if Chained(h, ds[..n]) {
      LastMisleads(h, ds[..n], ds[n]);
      WholeMisleads(h, ds);
    } else {
      UnchainedMisleads(h, ds[..n]);
      EarlierMisleads(h, ds, n);
    }
  }

  /** Exactly which losses must be flagged: of a truthful history delivered in order, no
      moment misleads, in a store of any size, if and only if every hole that swallows a
      serialized burst after a record that reads as closed is flagged on the record after it. */
  lemma LossIff(h: seq<Burst>, ds: seq<Delivery>)
    requires Truthful(h) && AllSent(h, ds) && Rising(ds)
    ensures Chained(h, ds) <==> !MisleadsSomewhere(h, ds)
  {
    if Chained(h, ds) {
      forall n: nat | n <= |ds| ensures !Misleads(h, ds[..n]) {
        PrefixInOrder(h, ds, n);
        NeverMisleads(h, ds[..n]);
      }
    } else {
      UnchainedMisleads(h, ds);
    }
  }

  // ----- From the producer's fires to the store, whatever is lost on the way.

  /** The records a sink lets through: no flag makes up for the rest. */
  function Passed(ds: seq<Delivery>, refused: set<nat>): seq<Delivery> {
    if ds == [] then []
    else Passed(ds[..|ds| - 1], refused) + if ds[|ds| - 1].index in refused then [] else [ds[|ds| - 1]]
  }

  lemma {:induction false} PassedSent(h: seq<Burst>, ds: seq<Delivery>, refused: set<nat>)
    requires AllSent(h, ds)
    ensures AllSent(h, Passed(ds, refused)) && |Passed(ds, refused)| <= |ds|
  {
    if ds != [] {
      PassedSent(h, ds[..|ds| - 1], refused);
    }
  }

  /** The most window records one fire carries. */
  const CAP := Probe.MaxRecords(Probe.KIND_SAMPLING_WINDOW)

  /** One fire as it leaves the probe, cut at the record cap. */
  function CutBatch(b: Batch): Batch { b.(count := Min(b.count, CAP)) }

  function Cut(bs: seq<Batch>): (r: seq<Batch>)
    ensures |r| == |bs| && forall i :: 0 <= i < |bs| ==> r[i] == CutBatch(bs[i])
  {
    seq(|bs|, i requires 0 <= i < |bs| => CutBatch(bs[i]))
  }

  ghost predicate AllFired(h: seq<Burst>, bs: seq<Batch>) {
    forall i :: 0 <= i < |bs| ==> BatchSent(h, bs[i])
  }

  lemma CutSent(h: seq<Burst>, bs: seq<Batch>, at: seq<nat>)
    requires AllFired(h, bs) && forall k :: 0 <= k < |at| ==> at[k] < |bs|
    ensures AllSent(h, Deliveries(Cut(bs), at))
  {
    forall k | 0 <= k < |at| ensures BatchSent(h, Cut(bs)[at[k]]) {
      assert BatchSent(h, bs[at[k]]);
    }
    GapsSent(h, Cut(bs), at);
  }

  /** What the store is given: fires cut at the cap, some of them lost, in any order and any
      number of times, less what the sink refuses. */
  ghost function Given(h: seq<Burst>, bs: seq<Batch>, at: seq<nat>, refused: set<nat>): (ds: seq<Delivery>)
    requires AllFired(h, bs) && forall k :: 0 <= k < |at| ==> at[k] < |bs|
    ensures AllSent(h, ds)
  {
    CutSent(h, bs, at);
    PassedSent(h, Deliveries(Cut(bs), at), refused);
    Passed(Deliveries(Cut(bs), at), refused)
  }

  /** The disclosure end to end, exactly: over every fire, cut, loss, reordering, repetition
      and refusal, the store is wrong about a burst if and only if what it holds is exposed
      there; with room for everything, if and only if what it was given missed the burst. */
  lemma TransportIff(h: seq<Burst>, bs: seq<Batch>, at: seq<nat>, refused: set<nat>, pid: uint32, rs: seq<Record>,
                     maxPerPID: nat, maxPIDs: nat, j: nat)
    requires Truthful(h) && AllFired(h, bs) && maxPerPID >= 1 && forall k :: 0 <= k < |at| ==> at[k] < |bs|
    requires OfProcess(rs, pid) == Records(h, Given(h, bs, at, refused), pid)
    ensures var run, ds := Run(rs, maxPerPID, maxPIDs), Given(h, bs, at, refused);
      && ((exists from, to :: WrongFor(h, run, pid, from, to, j)) <==> pid in run && Exposed(h, run[pid], j))
      && (|ds| <= maxPerPID ==>
            ((exists from, to :: WrongFor(h, run, pid, from, to, j)) <==> pid in run && Missed(h, ds, j)))
  {
    var ds := Given(h, bs, at, refused);
    AnyOrderIff(h, ds, pid, rs, maxPerPID, maxPIDs, j);
    if |ds| <= maxPerPID {
      MissedIff(h, ds, pid, rs, maxPerPID, maxPIDs, j);
    }
  }

  // ----- Exactly when the record cap does harm.

  lemma {:induction false} UnpackRising(ds: seq<Delivery>, b: Batch, lost: uint64, n: nat)
    requires Rising(ds) && LastIndex(ds) < b.first
    ensures Rising(Unpack(ds, b, lost, n))
    ensures LastIndex(Unpack(ds, b, lost, n)) == if n == 0 then LastIndex(ds) else b.first + n - 1
  {
    if n > 0 {
      UnpackRising(ds, b, lost, n - 1);
      var before := Unpack(ds, b, lost, n - 1);
      assert Unpack(ds, b, lost, n)[..|before|] == before;
    }
  }

  /** Two fires arrive one after the other, and what the cap cut off the first swallows a
      serialized burst. */
  ghost predicate CutHarms(h: seq<Burst>, bs: seq<Batch>, at: seq<nat>, k: nat)
    requires Arrived(bs, at)
  {
    && 0 < k < |at| && at[k] == at[k - 1] + 1
    && Swallows(h, bs[at[k - 1]].first + CutBatch(bs[at[k - 1]]).count - 1, Delivery(bs[at[k]].first, 0))
  }

  /** The first record after an arrival that skipped fires is flagged; after one that did
      not, it is not. */
  lemma CutFollowsIff(h: seq<Burst>, bs: seq<Batch>, at: seq<nat>, k: nat)
    requires Numbered(bs) && Arrived(bs, at) && 0 < k < |at|
    ensures var prev, b := bs[at[k - 1]], bs[at[k]];
      && prev.first + CutBatch(prev).count - 1 < b.first
      && (Follows(h, prev.first + CutBatch(prev).count - 1, Delivery(b.first, Skipped(Some(prev.seqNo), b.seqNo)))
          <==> !CutHarms(h, bs, at, k))
  {
    NumberedApart(bs, at[k - 1], at[k]);
    SkippedExact(bs[at[k - 1]].seqNo, bs[at[k]].seqNo);
  }

  ghost predicate CapHarmless(h: seq<Burst>, bs: seq<Batch>, at: seq<nat>)
    requires Arrived(bs, at)
  {
    forall k :: 0 <= k < |at| ==> !CutHarms(h, bs, at, k)
  }

  lemma CapHarmlessNext(h: seq<Burst>, bs: seq<Batch>, at: seq<nat>)
    requires Arrived(bs, at) && at != []
    ensures Arrived(bs, at[..|at| - 1])
    ensures CapHarmless(h, bs, at) <==> CapHarmless(h, bs, at[..|at| - 1]) && !CutHarms(h, bs, at, |at| - 1)
  {
    var n := |at| - 1;
    assert forall k :: 0 <= k < n ==> (CutHarms(h, bs, at[..n], k) <==> CutHarms(h, bs, at, k));
  }

  /** The last record handed on, -1 before the first. */
  function CutLast(bs: seq<Batch>, at: seq<nat>): int
    requires forall k :: 0 <= k < |at| ==> at[k] < |bs|
  {
    if at == [] then -1 else bs[at[|at| - 1]].first + CutBatch(bs[at[|at| - 1]]).count - 1
  }

  /** What the consumer charges to the last arrival. */
  function LastGap(bs: seq<Batch>, at: seq<nat>): uint64
    requires at != [] && forall k :: 0 <= k < |at| ==> at[k] < |bs|
  {
    var n := |at| - 1;
    Skipped(if n == 0 then None else Some(bs[at[n - 1]].seqNo), bs[at[n]].seqNo)
  }

  lemma CutDeliveries(bs: seq<Batch>, at: seq<nat>)
    requires at != [] && forall k :: 0 <= k < |at| ==> at[k] < |bs|
    ensures var n := |at| - 1;
      Deliveries(Cut(bs), at)
        == Unpack(Deliveries(Cut(bs), at[..n]), CutBatch(bs[at[n]]), LastGap(bs, at), CutBatch(bs[at[n]]).count)
  {
  }

  lemma CutStarts(h: seq<Burst>, bs: seq<Batch>, at: seq<nat>)
    requires Numbered(bs) && Arrived(bs, at) && at != []
    ensures var n, last := |at| - 1, CutLast(bs, at[..|at| - 1]);
      && last < bs[at[n]].first && CutBatch(bs[at[n]]).count >= 1
      && (Follows(h, last, Delivery(bs[at[n]].first, LastGap(bs, at))) <==> !CutHarms(h, bs, at, n))
  {
    var n := |at| - 1;
    if n > 0 {
      CutFollowsIff(h, bs, at, n);
    } else {
      FlaggedFollows(h, -1, Delivery(bs[at[n]].first, LastGap(bs, at)));
    }
  }

  lemma {:induction false} CutChainedIff(h: seq<Burst>, bs: seq<Batch>, at: seq<nat>)
    requires Numbered(bs) && Arrived(bs, at)
    ensures var ds := Deliveries(Cut(bs), at);
      Rising(ds) && LastIndex(ds) == CutLast(bs, at) && (Chained(h, ds) <==> CapHarmless(h, bs, at))
  {
    if at != [] {
      CapHarmlessNext(h, bs, at);
      CutChainedIff(h, bs, at[..|at| - 1]);
      CutDeliveries(bs, at);
      CutStarts(h, bs, at);
      var prior, b := Deliveries(Cut(bs), at[..|at| - 1]), CutBatch(bs[at[|at| - 1]]);
      UnpackRising(prior, b, LastGap(bs, at), b.count);
      UnpackChainedIff(h, prior, b, LastGap(bs, at), b.count);
    }
  }

  /** Of a truthful history whose fires arrive in order, some missing, no moment misleads a
      store of any size if and only if no fire is cut so that, the next one having arrived,
      a serialized burst is swallowed after a record that reads as closed. */
  lemma CapIff(h: seq<Burst>, bs: seq<Batch>, at: seq<nat>)
    requires Truthful(h) && Numbered(bs) && Arrived(bs, at) && AllFired(h, bs)
    ensures AllSent(h, Deliveries(Cut(bs), at))
    ensures CapHarmless(h, bs, at) <==> !MisleadsSomewhere(h, Deliveries(Cut(bs), at))
  {
    CutSent(h, bs, at);
    CutChainedIff(h, bs, at);
    LossIff(h, Deliveries(Cut(bs), at));
  }

  /** A fire no larger than the cap, which the shipped adapter never exceeds, does no harm. */
  lemma UncutHarmless(h: seq<Burst>, bs: seq<Batch>, at: seq<nat>, k: nat)
    requires Numbered(bs) && Arrived(bs, at) && 0 < k < |at| && bs[at[k - 1]].count <= CAP
    ensures !CutHarms(h, bs, at, k)
  {
    NumberedApart(bs, at[k - 1], at[k]);
  }

  // ----- Losses nobody flags, shown.

  /** With room for them, arrivals that missed a burst mislead at its start. */
  lemma MissedMisleads(h: seq<Burst>, ds: seq<Delivery>, pid: uint32, maxPerPID: nat, maxPIDs: nat, j: nat)
    requires Orderly(h) && AllSent(h, ds) && |ds| <= maxPerPID && maxPIDs >= 1 && Missed(h, ds, j)
    ensures Misled(h, ds, pid, maxPerPID, maxPIDs, h[j].start, h[j].start, j)
  {
    var rs := Records(h, ds, pid);
    var s := Alone(rs, maxPerPID);
    AloneOfHistory(h, ds, pid, maxPerPID);
    AloneMirrors(h, ds, pid, maxPerPID);
    MissedExposed(h, ds, s, j);
    ExposedWrong(h, s, j);
    StartOrder(h, Restart(ds), j);
    forall r | r in rs ensures r.pid == pid && !r.Inverted() {
      NotInverted(h, ds, pid, r);
    }
    RunAnswers(rs, pid, maxPerPID, maxPIDs, h[j].start, h[j].start);
  }

  /** Three bursts, the middle one serialized, the outer two with records that read as closed. */
  ghost predicate Straddles(h: seq<Burst>, i: nat, j: nat, k: nat) {
    Orderly(h) && i < j < k < |h| && h[j].serialized && h[i].end > 0 && h[k].closes
  }

  /** Whatever loses every record between two closes without a flag on the second makes
      the disclosure wrong about any serialized burst in between. */
  lemma UnflaggedLossMisleads(h: seq<Burst>, i: nat, j: nat, k: nat, pid: uint32, maxPerPID: nat, maxPIDs: nat)
    requires Straddles(h, i, j, k) && maxPerPID >= 2 && maxPIDs >= 1
    ensures Close(i, 0).Burst() < |h| && Close(k, 0).Burst() < |h|
    ensures Misled(h, [Close(i, 0), Close(k, 0)], pid, maxPerPID, maxPIDs, h[j].start, h[j].start, j)
  {
    CloseRecord(h, i, 0, pid);
    CloseRecord(h, k, 0, pid);
    var ds := [Close(i, 0), Close(k, 0)];
    assert ds[..1] == [Close(i, 0)] && Restart(ds) == i;
    assert ds[0].Burst() == i && ReadsClosed(h, ds[0].index) && ds[1].Burst() == k;
    assert Delivered(ds, k);
    MissedMisleads(h, ds, pid, maxPerPID, maxPIDs, j);
  }

  /** One record to a fire, as the shipped adapter sends them. */
  function Singles(n: nat): (bs: seq<Batch>)
    requires n <= MAX_UINT64
    ensures |bs| == n && forall m :: 0 <= m < n ==> bs[m] == Batch(m, m, 1)
  {
    seq(n, m requires 0 <= m < n => Batch(m, m, 1))
  }

  /** Fires lo up to hi, all arriving in order. */
  function Onward(lo: nat, hi: nat): (at: seq<nat>)
    requires lo <= hi
    ensures |at| == hi - lo && forall m :: 0 <= m < hi - lo ==> at[m] == lo + m
  {
    seq(hi - lo, m requires 0 <= m < hi - lo => lo + m)
  }

  lemma UnpackOne(ds: seq<Delivery>, b: Batch, lost: uint64)
    requires b.count == 1
    ensures Unpack(ds, b, lost, b.count) == ds + [Delivery(b.first, lost)]
  {
    assert Unpack(ds, b, lost, 0) == ds;
  }

  lemma DeliveriesNext(bs: seq<Batch>, at: seq<nat>, n: nat)
    requires n < |bs| && forall k :: 0 <= k < |at| ==> at[k] < |bs|
    ensures var prev := if at == [] then None else Some(bs[at[|at| - 1]].seqNo);
      Deliveries(bs, at + [n]) == Unpack(Deliveries(bs, at), bs[n], Skipped(prev, bs[n].seqNo), bs[n].count)
  {
    var all := at + [n];
    assert all != [] && |all| - 1 == |at| && all[|at|] == n;
    assert all[..|at|] == at;
    assert at != [] ==> all[|at| - 1] == at[|at| - 1];
  }

  /** Arriving one after another, single records are handed on as they were sent. */
  lemma {:induction false} OnwardDelivered(n: nat, lo: nat, hi: nat)
    requires lo < hi <= n <= MAX_UINT64
    ensures Deliveries(Singles(n), Onward(lo, hi))
      == seq(hi - lo, m requires 0 <= m < hi - lo => Delivery(lo + m, 0))
  {
    var bs, at := Singles(n), Onward(lo, hi - 1);
    assert Onward(lo, hi) == at + [hi - 1];
    if lo < hi - 1 {
      OnwardDelivered(n, lo, hi - 1);
    }
    OnwardNext(n, lo, hi, bs, at);
  }

  lemma OnwardNext(n: nat, lo: nat, hi: nat, bs: seq<Batch>, at: seq<nat>)
    requires lo < hi <= n <= MAX_UINT64 && bs == Singles(n) && at == Onward(lo, hi - 1)
    ensures Deliveries(bs, at + [hi - 1]) == Deliveries(bs, at) + [Delivery(hi - 1, 0)]
  {
    DeliveriesNext(bs, at, hi - 1);
    UnpackOne(Deliveries(bs, at), bs[hi - 1], 0);
    if lo < hi - 1 {
      SkippedExact(hi - 2, hi - 1);
    }
  }

  lemma PassedNext(ds: seq<Delivery>, d: Delivery, refused: set<nat>)
    ensures Passed(ds + [d], refused) == Passed(ds, refused) + if d.index in refused then [] else [d]
  {
    assert (ds + [d])[..|ds|] == ds;
  }

  ghost predicate RefusesBetween(refused: set<nat>, lo: nat, hi: nat) {
    lo !in refused && hi !in refused && forall m: nat :: lo < m < hi ==> m in refused
  }

  lemma {:induction false} PassedBetween(ds: seq<Delivery>, lo: nat, hi: nat, refused: set<nat>)
    requires lo < hi && RefusesBetween(refused, lo, hi) && 1 <= |ds| <= hi - lo
    requires forall m :: 0 <= m < |ds| ==> ds[m] == Delivery(lo + m, 0)
    ensures Passed(ds, refused) == [Delivery(lo, 0)]
  {
    var n := |ds| - 1;
    assert ds == ds[..n] + [ds[n]];
    PassedNext(ds[..n], ds[n], refused);
    if n > 0 {
      PassedBetween(ds[..n], lo, hi, refused);
    }
  }

  lemma OnwardPassed(n: nat, lo: nat, hi: nat, refused: set<nat>)
    requires lo < hi < n <= MAX_UINT64 && RefusesBetween(refused, lo, hi)
    ensures Passed(Deliveries(Singles(n), Onward(lo, hi + 1)), refused) == [Delivery(lo, 0), Delivery(hi, 0)]
  {
    OnwardDelivered(n, lo, hi + 1);
    var ds := Deliveries(Singles(n), Onward(lo, hi + 1));
    var m := |ds| - 1;
    assert ds == ds[..m] + [ds[m]];
    PassedNext(ds[..m], ds[m], refused);
    PassedBetween(ds[..m], lo, hi, refused);
  }

  /** A sink that refuses windows, which the consumer counts but flags nowhere, misleads: every
      record arrives, in order, in a fire of its own, and the serialized burst is denied. */
  lemma SinkRefusalMisleads(h: seq<Burst>, i: nat, j: nat, k: nat, pid: uint32, maxPerPID: nat, maxPIDs: nat,
                            refused: set<nat>)
    requires Straddles(h, i, j, k) && maxPerPID >= 2 && maxPIDs >= 1 && 2 * |h| <= MAX_UINT64
    requires RefusesBetween(refused, 2 * i + 1, 2 * k + 1)
    ensures var bs, at := Singles(2 * |h|), Onward(2 * i + 1, 2 * k + 2);
      var ds := Passed(Deliveries(bs, at), refused);
      && Numbered(bs) && Arrived(bs, at)
      && (forall n :: 0 <= n < |ds| ==> ds[n].Burst() < |h|)
      && Misled(h, ds, pid, maxPerPID, maxPIDs, h[j].start, h[j].start, j)
  {
    OnwardPassed(2 * |h|, 2 * i + 1, 2 * k + 1, refused);
    UnflaggedLossMisleads(h, i, j, k, pid, maxPerPID, maxPIDs);
  }

  /** A fire of more than the cap, and the fire after it. */
  function CutFires(first: nat, sent: nat): seq<Batch> {
    [Batch(0, first, sent), Batch(1, first + sent, 1)]
  }

  lemma CutFiresArrive(first: nat, sent: nat, bs: seq<Batch>)
    requires sent > CAP && bs == CutFires(first, sent)
    ensures Numbered(bs) && Arrived(bs, [0, 1])
    ensures Deliveries(Cut(bs), [0, 1]) == Unpack([], CutBatch(bs[0]), 0, CAP) + [Delivery(first + sent, 0)]
  {
    DeliveriesNext(Cut(bs), [], 0);
    DeliveriesNext(Cut(bs), [0], 1);
    assert [] + [0] == [0] && [0] + [1] == [0, 1];
    assert Skipped(Some(0), 1) == 0;
    UnpackOne(Deliveries(Cut(bs), [0]), Cut(bs)[1], 0);
  }

  /** A fire of more records than the cap misleads if the last record kept reads as closed and
      a whole serialized burst lies between it and the next fire: the records cut off have no
      number of their own, so the next fire follows without a gap. */
  lemma BatchCapMisleads(h: seq<Burst>, first: nat, sent: nat, j: nat, pid: uint32, bs: seq<Batch>)
    requires Orderly(h) && sent > CAP && bs == CutFires(first, sent) && AllFired(h, bs)
    requires ReadsClosed(h, first + CAP - 1) && (first + CAP - 1) / 2 < j < (first + sent) / 2
    requires j < |h| && h[j].serialized
    ensures CAP == 64 && Numbered(bs) && Arrived(bs, [0, 1]) && AllSent(h, Deliveries(Cut(bs), [0, 1]))
    ensures Misled(h, Deliveries(Cut(bs), [0, 1]), pid, 2, 1, h[j].start, h[j].start, j)
  {
    CutFiresArrive(first, sent, bs);
    CutSent(h, bs, [0, 1]);
    var b, d := CutBatch(bs[0]), Delivery(first + sent, 0);
    assert BatchSent(h, bs[0]) && BatchSent(h, bs[1]);
    UnpackSent(h, [], b, 0, CAP);
    FlaggedFollows(h, -1, Delivery(first, 0));
    UnpackChained(h, [], b, 0, CAP);
    SwallowMisleads(h, Unpack([], b, 0, CAP), d, pid, j);
  }

  // ----- Fires that overtake each other.

  lemma SkippedBack(prev: uint64, seqNo: uint64)
    requires seqNo <= prev < MAX_UINT64
    ensures Skipped(Some(prev), seqNo) == 0
  {
    assert Add64(prev, 1) == prev + 1;
  }

  lemma DeliverFirst(bs: seq<Batch>, n: nat)
    requires n < |bs| && bs[n].count == 1
    ensures Deliveries(bs, [n]) == [Delivery(bs[n].first, 0)]
  {
    DeliveriesNext(bs, [], n);
    UnpackOne([], bs[n], 0);
    assert [] + [n] == [n] && Deliveries(bs, []) == [];
  }

  /** The latest close first, then the oldest, then one in between, flagged for the gap
      back from the oldest. */
  lemma OvertakingArrives(n: nat, a: nat, i: nat, k: nat)
    requires a < i < k && 2 * k + 1 < n <= MAX_UINT64
    ensures Numbered(Singles(n))
    ensures Deliveries(Singles(n), [2 * k + 1, 2 * a + 1, 2 * i + 1])
      == [Close(k, 0), Close(a, 0), Close(i, 2 * (i - a) - 1)]
  {
    var bs, x, y, z := Singles(n), 2 * k + 1, 2 * a + 1, 2 * i + 1;
    DeliverFirst(bs, x);
    DeliveriesNext(bs, [x], y);
    DeliveriesNext(bs, [x, y], z);
    assert [x] + [y] == [x, y] && [x, y] + [z] == [x, y, z];
    SkippedBack(x, y);
    SkippedExact(y, z);
    UnpackOne([Close(k, 0)], bs[y], 0);
    UnpackOne([Close(k, 0), Close(a, 0)], bs[z], z - y - 1);
  }

  lemma OvertakingMissed(h: seq<Burst>, a: nat, i: nat, j: nat, k: nat, lost: uint64, ds: seq<Delivery>)
    requires Straddles(h, i, j, k) && a < i && h[a].end > 0 && lost > 0
    requires ds == [Close(k, 0), Close(a, 0), Close(i, lost)]
    ensures AllSent(h, ds) && Missed(h, ds, j)
  {
    CloseRecord(h, k, 0, 0);
    CloseRecord(h, a, 0, 0);
    CloseRecord(h, i, lost, 0);
    assert ds[0].Burst() == k && Delivered(ds, k);
    assert ReadsClosed(h, ds[1].index) && ReadsClosed(h, ds[2].index);
  }

  /** Fires that overtake each other mislead even with every gap flagged: the coverage a
      flagged one restarts reaches over one still missing to one that came before it. */
  lemma OvertakingMisleads(h: seq<Burst>, a: nat, i: nat, j: nat, k: nat, pid: uint32, maxPerPID: nat, maxPIDs: nat)
    requires Straddles(h, i, j, k) && a < i && h[a].end > 0 && 2 * |h| <= MAX_UINT64
    requires maxPerPID >= 3 && maxPIDs >= 1
    ensures var ds := Deliveries(Singles(2 * |h|), [2 * k + 1, 2 * a + 1, 2 * i + 1]);
      && (forall n :: 0 <= n < |ds| ==> ds[n].Burst() < |h|)
      && Misled(h, ds, pid, maxPerPID, maxPIDs, h[j].start, h[j].start, j)
  {
    var lost := 2 * (i - a) - 1;
    OvertakingArrives(2 * |h|, a, i, k);
    var ds := [Close(k, 0), Close(a, 0), Close(i, lost)];
    OvertakingMissed(h, a, i, j, k, lost, ds);
    MissedMisleads(h, ds, pid, maxPerPID, maxPIDs, j);
  }
}
