/** How a loss reaches the window store: batch sequence numbers on the wire, the
    consumer's gap detection, and the disclosure theorem end to end
    (gpuprobe/consumer.go). */
module WindowTransport {
  import opened Machine
  import opened Serialization
  import opened Disclosure

  datatype StreamKey = StreamKey(kind: uint32, pid: uint32)

  /** Positions skipped between consecutive arrivals of one stream. */
  function Skipped(prev: Option<uint64>, seqNo: uint64): uint64 {
    if prev.Some? && seqNo > Add64(prev.value, 1) then Sub64(Sub64(seqNo, prev.value), 1) else 0
  }

  class SequenceTracker {
    var seqByStream: map<StreamKey, uint64>
    var sequenceGaps: nat

    constructor ()
      ensures seqByStream == map[] && sequenceGaps == 0
    {
      seqByStream, sequenceGaps := map[], 0;
    }

    method NoteSeq(kind: uint32, pid: uint32, seqNo: uint64) returns (lost: uint64)
      modifies this
      ensures var key := StreamKey(kind, pid);
        && lost == Skipped(if key in old(seqByStream) then Some(old(seqByStream)[key]) else None, seqNo)
        && seqByStream == old(seqByStream)[key := seqNo]
      ensures sequenceGaps == old(sequenceGaps) + lost
    {
      var key := StreamKey(kind, pid);
      lost := 0;
      if key in seqByStream {
        var prev := seqByStream[key];
        if seqNo > Add64(prev, 1) {
          lost := Sub64(Sub64(seqNo, prev), 1);
          sequenceGaps := sequenceGaps + lost;
        }
      }
      seqByStream := seqByStream[key := seqNo];
    }
  }

  /** One batch of consecutive window records, as the producer numbered it. */
  datatype Batch = Batch(seqNo: uint64, first: nat, count: nat)

  /** Everything the producer sent: consecutive numbers, consecutive records. */
  ghost predicate Numbered(bs: seq<Batch>) {
    && (forall i :: 0 <= i < |bs| ==> bs[i].count >= 1)
    && (forall i :: 0 < i < |bs| ==> bs[i].seqNo == bs[i - 1].seqNo + 1)
    && (forall i :: 0 < i < |bs| ==> bs[i].first == bs[i - 1].first + bs[i - 1].count)
  }

  /** Which batches arrived: any in-order selection of the sent ones. */
  ghost predicate Arrived(bs: seq<Batch>, at: seq<nat>) {
    && (forall k :: 0 <= k < |at| ==> at[k] < |bs|)
    && (forall k :: 0 < k < |at| ==> at[k - 1] < at[k])
  }

  /** The first n records of one batch, handed on after ds; the gap is charged to the
      first of them only. */
  function Unpack(ds: seq<Delivery>, b: Batch, lost: uint64, n: nat): seq<Delivery> {
    if n == 0 then ds
    else Unpack(ds, b, lost, n - 1) + [Delivery(b.first + n - 1, if n == 1 then lost else 0)]
  }

  /** Everything the consumer hands to the store. */
  function Deliveries(bs: seq<Batch>, at: seq<nat>): seq<Delivery>
    requires forall k :: 0 <= k < |at| ==> at[k] < |bs|
  {
    if at == [] then []
    else
      var n := |at| - 1;
      var prev := if n == 0 then None else Some(bs[at[n - 1]].seqNo);
      Unpack(Deliveries(bs, at[..n]), bs[at[n]], Skipped(prev, bs[at[n]].seqNo), bs[at[n]].count)
  }

  lemma {:induction false} NumberedApart(bs: seq<Batch>, i: nat, j: nat)
    requires Numbered(bs) && i <= j < |bs|
    ensures bs[j].seqNo == bs[i].seqNo + (j - i)
    ensures i < j ==> bs[i].first + bs[i].count <= bs[j].first
    ensures i + 1 == j ==> bs[i].first + bs[i].count == bs[j].first
  {
    if i < j {
      NumberedApart(bs, i, j - 1);
    }
  }

  lemma ChainExtends(h: seq<Burst>, ds: seq<Delivery>, d: Delivery)
    requires Chained(h, ds) && Follows(h, LastIndex(ds), d)
    ensures Chained(h, ds + [d]) && LastIndex(ds + [d]) == d.index
  {
    assert (ds + [d])[..|ds|] == ds;
  }

  ghost predicate BatchSent(h: seq<Burst>, b: Batch) {
    forall k :: b.first <= k < b.first + b.count ==> Sent(h, Delivery(k, 0))
  }

  lemma {:induction false} UnpackChained(h: seq<Burst>, ds: seq<Delivery>, b: Batch, lost: uint64, n: nat)
    requires Chained(h, ds) && Follows(h, LastIndex(ds), Delivery(b.first, lost))
    ensures Chained(h, Unpack(ds, b, lost, n))
    ensures LastIndex(Unpack(ds, b, lost, n)) == if n == 0 then LastIndex(ds) else b.first + n - 1
  {
    if n > 0 {
      UnpackChained(h, ds, b, lost, n - 1);
      ChainExtends(h, Unpack(ds, b, lost, n - 1), Delivery(b.first + n - 1, if n == 1 then lost else 0));
    }
  }

  lemma {:induction false} UnpackChainedIff(h: seq<Burst>, ds: seq<Delivery>, b: Batch, lost: uint64, n: nat)
    requires n >= 1
    ensures Chained(h, Unpack(ds, b, lost, n)) <==> Chained(h, ds) && Follows(h, LastIndex(ds), Delivery(b.first, lost))
    ensures LastIndex(Unpack(ds, b, lost, n)) == b.first + n - 1
  {
    var before := Unpack(ds, b, lost, n - 1);
    assert Unpack(ds, b, lost, n)[..|before|] == before;
    if n > 1 {
      UnpackChainedIff(h, ds, b, lost, n - 1);
    }
  }

  lemma SentAlike(h: seq<Burst>, d: Delivery)
    requires Sent(h, Delivery(d.index, 0))
    ensures Sent(h, d)
  {
  }

  lemma {:induction false} UnpackSent(h: seq<Burst>, ds: seq<Delivery>, b: Batch, lost: uint64, n: nat)
    requires AllSent(h, ds) && n <= b.count && BatchSent(h, b)
    ensures AllSent(h, Unpack(ds, b, lost, n))
  {
    if n > 0 {
      UnpackSent(h, ds, b, lost, n - 1);
      var d := Delivery(b.first + n - 1, if n == 1 then lost else 0);
      assert Sent(h, Delivery(d.index, 0));
      SentAlike(h, d);
    }
  }

  lemma SkippedExact(prev: uint64, seqNo: uint64)
    requires prev < seqNo
    ensures Skipped(Some(prev), seqNo) == seqNo - prev - 1
  {
    assert Add64(prev, 1) == prev + 1;
    assert Sub64(seqNo, prev) == seqNo - prev;
  }

  /** A batch that skips others says so on its first record. */
  lemma BatchFollows(h: seq<Burst>, bs: seq<Batch>, i: nat, j: nat)
    requires Numbered(bs) && i < j < |bs|
    ensures Follows(h, bs[i].first + bs[i].count - 1,
                    Delivery(bs[j].first, Skipped(Some(bs[i].seqNo), bs[j].seqNo)))
  {
    NumberedApart(bs, i, j);
    SkippedExact(bs[i].seqNo, bs[j].seqNo);
  }

  /** The last record handed on, -1 before the first. */
  function LastHanded(bs: seq<Batch>, at: seq<nat>): int
    requires forall k :: 0 <= k < |at| ==> at[k] < |bs|
  {
    if at == [] then -1 else bs[at[|at| - 1]].first + bs[at[|at| - 1]].count - 1
  }

  /** The next arrival follows exactly if it was sent later. */
  lemma ArrivalFollowsIff(h: seq<Burst>, bs: seq<Batch>, i: nat, j: nat)
    requires Numbered(bs) && i < |bs| && j < |bs|
    ensures var next := Delivery(bs[j].first, Skipped(Some(bs[i].seqNo), bs[j].seqNo));
      Follows(h, bs[i].first + bs[i].count - 1, next) <==> i < j
  {
    if i < j {
      BatchFollows(h, bs, i, j);
    } else {
      NumberedApart(bs, j, i);
    }
  }

  lemma ArrivedNext(bs: seq<Batch>, at: seq<nat>)
    requires at != []
    ensures var n := |at| - 1;
      Arrived(bs, at) <==> Arrived(bs, at[..n]) && at[n] < |bs| && (n > 0 ==> at[n - 1] < at[n])
  {
    var n := |at| - 1;
    assert forall k :: 0 <= k < n ==> at[..n][k] == at[k];
  }

  lemma {:induction false} GapsChainedIff(h: seq<Burst>, bs: seq<Batch>, at: seq<nat>)
    requires Numbered(bs) && forall k :: 0 <= k < |at| ==> at[k] < |bs|
    ensures Chained(h, Deliveries(bs, at)) <==> Arrived(bs, at)
    ensures LastIndex(Deliveries(bs, at)) == LastHanded(bs, at)
  {
    if at != [] {
      var n := |at| - 1;
      var b := bs[at[n]];
      var prev := if n == 0 then None else Some(bs[at[n - 1]].seqNo);
      ArrivedNext(bs, at);
      GapsChainedIff(h, bs, at[..n]);
      if n > 0 {
        ArrivalFollowsIff(h, bs, at[n - 1], at[n]);
      } else {
        FlaggedFollows(h, -1, Delivery(b.first, Skipped(prev, b.seqNo)));
      }
      UnpackChainedIff(h, Deliveries(bs, at[..n]), b, Skipped(prev, b.seqNo), b.count);
    }
  }

  lemma {:induction false} GapsSent(h: seq<Burst>, bs: seq<Batch>, at: seq<nat>)
    requires forall k :: 0 <= k < |at| ==> at[k] < |bs| && BatchSent(h, bs[at[k]])
    ensures AllSent(h, Deliveries(bs, at))
  {
    if at != [] {
      var n := |at| - 1;
      GapsSent(h, bs, at[..n]);
      var prev := if n == 0 then None else Some(bs[at[n - 1]].seqNo);
      UnpackSent(h, Deliveries(bs, at[..n]), bs[at[n]], Skipped(prev, bs[at[n]].seqNo), bs[at[n]].count);
    }
  }

  /** The consumer's gap detection flags every hole the transport leaves: whichever
      batches arrive, what it hands the store is in order with every loss marked if and
      only if no batch overtook another. */
  lemma GapsFlagged(h: seq<Burst>, bs: seq<Batch>, at: seq<nat>)
    requires Numbered(bs) && forall k :: 0 <= k < |at| ==> at[k] < |bs|
    requires forall i :: 0 <= i < |bs| ==> BatchSent(h, bs[i])
    ensures InOrder(h, Deliveries(bs, at)) <==> Arrived(bs, at)
  {
    GapsChainedIff(h, bs, at);
    GapsSent(h, bs, at);
  }

  /** The records the store receives for one process. */
  ghost function Stream(h: seq<Burst>, bs: seq<Batch>, at: seq<nat>, pid: uint32): seq<Record>
    requires Numbered(bs) && Arrived(bs, at)
    requires forall i :: 0 <= i < |bs| ==> BatchSent(h, bs[i])
  {
    GapsFlagged(h, bs, at);
    Records(h, Deliveries(bs, at), pid)
  }

  /** The disclosure theorem from probe to answer: if the producer's records are
      truthful and its batches numbered, then whichever batches the transport drops
      and whatever other processes send, "not serialized" is true. */
  lemma DisclosureSoundEndToEnd(h: seq<Burst>, bs: seq<Batch>, at: seq<nat>, pid: uint32, rs: seq<Record>,
                                maxPerPID: nat, maxPIDs: nat, from: uint64, to: uint64, j: nat)
    requires Truthful(h) && Numbered(bs) && Arrived(bs, at) && maxPerPID >= 1
    requires forall i :: 0 <= i < |bs| ==> BatchSent(h, bs[i])
    requires OfProcess(rs, pid) == Stream(h, bs, at, pid)
    requires Classify(Run(rs, maxPerPID, maxPIDs), pid, from, to) == NotSerialized
    requires j < |h| && h[j].serialized
    ensures !h[j].Intersects(from, to)
  {
    GapsFlagged(h, bs, at);
    DisclosureSound(h, Deliveries(bs, at), pid, rs, maxPerPID, maxPIDs, from, to, j);
  }
}
