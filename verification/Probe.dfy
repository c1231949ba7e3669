/** One probe fire, from the producer's records to the ring, and the consumer's decoding of
    what it submits (bpf/gpu_usdt.bpf.c, gpuprobe/consumer.go). */
module Probe {
  import opened Machine
  import opened Wire
  import opened StackHandles

  const KIND_UNKNOWN: uint32 := 0
  const KIND_LAUNCH: uint32 := 1
  const KIND_EXEC: uint32 := 2
  const KIND_MODULE: uint32 := 3
  const KIND_PC: uint32 := 4
  const KIND_LAUNCH_SAMPLED: uint32 := 5
  const KIND_KERNEL_NAME: uint32 := 6
  const KIND_STALL_MAP: uint32 := 7
  const KIND_SAMPLING_WINDOW: uint32 := 8
  const KIND_CONFIG: uint32 := 9
  const KIND_DROPPED: uint32 := 10
  const KIND_MAX: uint32 := 16

  const PAYLOAD_BYTES: int := 64 * 48
  const HDR_SIZE: int := 40

  function RecordSize(kind: uint32): (r: nat)
    ensures r <= 272
  {
    if kind == KIND_LAUNCH || kind == KIND_EXEC then 48
    else if kind == KIND_MODULE || kind == KIND_PC then 40
    else if kind == KIND_LAUNCH_SAMPLED then 56
    else if kind == KIND_KERNEL_NAME then 272
    else if kind == KIND_STALL_MAP then 136
    else if kind == KIND_SAMPLING_WINDOW || kind == KIND_CONFIG then 24
    else if kind == KIND_DROPPED then 16
    else 0
  }

  function BatchCap(size: nat): nat
    requires size > 0
  {
    Min(PAYLOAD_BYTES / size, 64)
  }

  function MaxRecords(kind: uint32): nat {
    if kind == KIND_LAUNCH_SAMPLED then 1
    else if RecordSize(kind) == 0 then 0
    else BatchCap(RecordSize(kind))
  }

  /** Any kind the program can size fits at least one record, and as many as it allows
      always fit the reservation. */
  lemma CapFits(kind: uint32, count: nat)
    requires RecordSize(kind) > 0 && count <= MaxRecords(kind)
    ensures MaxRecords(kind) >= 1 && count * RecordSize(kind) <= PAYLOAD_BYTES
  {
    assert MaxRecords(kind) * RecordSize(kind) <= PAYLOAD_BYTES;
    assert count * RecordSize(kind) <= MaxRecords(kind) * RecordSize(kind);
  }

  /** The wire's ten kinds, their record sizes and how many of each fit one message of 3072
      bytes, a sampled launch always alone and never more than 64; any other kind is unknown. */
  lemma KindCaps(kind: uint32)
    ensures var (size, cap) := (RecordSize(kind), MaxRecords(kind));
      if kind == 1 || kind == 2 then size == 48 && cap == 64
      else if kind == 3 || kind == 4 then size == 40 && cap == 64
      else if kind == 5 then size == 56 && cap == 1
      else if kind == 6 then size == 272 && cap == 11
      else if kind == 7 then size == 136 && cap == 22
      else if kind == 8 || kind == 9 then size == 24 && cap == 64
      else if kind == 10 then size == 16 && cap == 64
      else size == 0 && cap == 0
  {
  }

  datatype Msg = Msg(kind: uint32, count: uint32, seqNo: uint64, pid: uint32, tid: uint32,
                     nbytes: uint64, stackId: int, payload: Bytes)

  /** What a fire meets on the way: is there ring space, what does the producer's memory
      hold (None faults), what was in the reservation before; and for a sampled launch, on
      which CPU, whether its scratch is there, and what its walk recorded. */
  datatype World<C> = World(reserved: bool, memory: Option<Bytes>, garbage: Bytes,
                            cpu: nat, scratch: bool, capture: C, frames: nat)

  /** A batch parked while its stack is walked. */
  datatype Parked = Parked(kind: uint32, count: uint32, nbytes: nat, seqNo: uint64)
  {
    predicate Single() { kind == KIND_LAUNCH_SAMPLED && count == 1 && nbytes == RecordSize(KIND_LAUNCH_SAMPLED) }
  }

  /** There is something to submit, and both room and memory for it. */
  ghost predicate Submits<C>(kind: uint32, count: uint64, w: World<C>) {
    RecordSize(kind) > 0 && count > 0 && w.reserved && w.memory.Some?
  }

  /** The message is the producer's records, as many as fit, under the producer's own header. */
  ghost predicate Carries<C>(m: Msg, count: uint64, seqNo: uint64, pid: uint32, tid: uint32, w: World<C>) {
    && (m.seqNo, m.pid, m.tid) == (seqNo, pid, tid)
    && m.count == Min(count, MaxRecords(m.kind))
    && m.nbytes == m.count * RecordSize(m.kind)
    && m.nbytes <= |m.payload| && w.memory.Some? && m.nbytes <= |w.memory.value|
    && m.payload[..m.nbytes] == w.memory.value[..m.nbytes]
  }

  /** A submitted header never claims more than was copied. */
  predicate Sound(m: Msg) {
    && RecordSize(m.kind) > 0
    && 1 <= m.count <= MaxRecords(m.kind)
    && m.nbytes == m.count * RecordSize(m.kind) <= |m.payload|
    && |m.payload| <= PAYLOAD_BYTES
    && -0x8000_0000 <= m.stackId < 0x8000_0000
  }

  class Driver<C(==)> {
    const stacks: StackMap<C>
    var dropped: map<uint32, nat>
    var ring: seq<Msg>
    var parked: Parked
    var stackMissing: nat

    constructor ()
      ensures dropped == map[] && ring == [] && stackMissing == 0
      ensures fresh(stacks) && stacks.Model() == Stacks(map[], map[])
    {
      stacks := new StackMap();
      dropped, ring, parked, stackMissing := map[], [], Parked(0, 0, 0, 0), 0;
    }

    function Dropped(kind: uint32): nat
      reads this`dropped
    {
      if kind in dropped then dropped[kind] else 0
    }

    method CountDrop(kind: uint32, records: nat)
      modifies this`dropped
      ensures kind < KIND_MAX ==> dropped == old(dropped)[kind := old(Dropped(kind)) + records]
      ensures kind >= KIND_MAX ==> dropped == old(dropped)
    {
      if kind < KIND_MAX {
        dropped := dropped[kind := Dropped(kind) + records];
      }
    }

    /** Reserve, copy, submit; or count what could not be delivered. */
    method EmitPlain(kind: uint32, count: uint32, seqNo: uint64, pid: uint32, tid: uint32, nbytes: nat, w: World<C>)
      requires 0 < kind < KIND_MAX
      requires RecordSize(kind) > 0 && 1 <= count <= MaxRecords(kind) && nbytes == count * RecordSize(kind)
      requires |w.garbage| == PAYLOAD_BYTES && (w.memory.Some? ==> nbytes <= |w.memory.value|)
      modifies this`dropped, this`ring
      ensures if w.reserved && w.memory.Some?
        then dropped == old(dropped)
          && ring == old(ring) + [Msg(kind, count, seqNo, pid, tid, nbytes, -1,
                                      w.memory.value[..nbytes] + w.garbage[nbytes..])]
          && Sound(ring[|old(ring)|])
        else ring == old(ring) && dropped == old(dropped)[kind := old(Dropped(kind)) + count]
    {
      CapFits(kind, count);
      if !w.reserved {
        CountDrop(kind, count);
        return;
      }
      if w.memory.None? {
        CountDrop(kind, count);
        return;
      }
      var payload := w.memory.value[..nbytes] + w.garbage[nbytes..];
      ring := ring + [Msg(kind, count, seqNo, pid, tid, nbytes, -1, payload)];
    }

    /** The second half of a sampled launch, once its walk came back: the parked batch is
        sent under the handle its stack was published with, or under none. */
    method SampledWalk(pid: uint32, tid: uint32, w: World<C>)
      requires w.memory.Some? ==> RecordSize(KIND_LAUNCH_SAMPLED) <= |w.memory.value|
      modifies this`dropped, this`ring, this`stackMissing, stacks
      ensures parked.Single() && w.reserved && w.memory.Some? ==>
        var (published, id) := Publish(old(stacks.Model()), w.cpu, w.capture, w.frames);
        && stacks.Model() == published && dropped == old(dropped)
        && ring == old(ring) + [Msg(KIND_LAUNCH_SAMPLED, 1, parked.seqNo, pid, tid, 56, id, w.memory.value[..56])]
        && Sound(ring[|old(ring)|])
        && stackMissing == old(stackMissing) + (if id < 0 then 1 else 0)
      ensures !(parked.Single() && w.reserved && w.memory.Some?) ==>
        && ring == old(ring) && stacks.Model() == old(stacks.Model()) && stackMissing == old(stackMissing)
        && (parked.kind < KIND_MAX ==>
              dropped == old(dropped)[parked.kind := old(Dropped(parked.kind)) + parked.count])
    {
      var p := parked;
      if !p.Single() {
        CountDrop(p.kind, p.count);
        return;
      }
      if !w.reserved {
        CountDrop(p.kind, p.count);
        return;
      }
      if w.memory.None? {
        CountDrop(p.kind, p.count);
        return;
      }
      var id := stacks.PublishStack(w.cpu, w.capture, w.frames);
      if id < 0 {
        stackMissing := stackMissing + 1;
      }
      ring := ring + [Msg(p.kind, p.count, p.seqNo, pid, tid, p.nbytes, id, w.memory.value[..p.nbytes])];
    }

    /** A probe fire. Every record the producer passed is submitted or counted as dropped,
        under its own kind or, for a kind this program cannot size, under the unknown one.
        A batch is submitted exactly when there is something to submit, ring space for it and
        memory to read it from, and carries what was read; it carries a handle exactly when
        it is a sampled launch whose stack was published. */
    method Fire(kind: uint32, count: uint64, seqNo: uint64, pid: uint32, tid: uint32, w: World<C>)
      requires |w.garbage| == PAYLOAD_BYTES
      // The producer's array holds the records it says it passes.
      requires w.memory.Some? ==> Min(count, MaxRecords(kind)) * RecordSize(kind) <= |w.memory.value|
      modifies this, stacks
      ensures var slot := if RecordSize(kind) == 0 then KIND_UNKNOWN else kind;
        && old(ring) <= ring
        && |ring| <= |old(ring)| + 1
        && (|ring| > |old(ring)| ==> Sound(ring[|old(ring)|]) && ring[|old(ring)|].kind == kind)
        && (if |ring| > |old(ring)| then ring[|old(ring)|].count else 0) + Dropped(slot) - old(Dropped(slot)) == count
        && (forall k :: k != slot ==> Dropped(k) == old(Dropped(k)))
      ensures |ring| > |old(ring)| <==> Submits(kind, count, w)
      ensures |ring| > |old(ring)| ==> Carries(ring[|old(ring)|], count, seqNo, pid, tid, w)
      ensures kind == KIND_LAUNCH_SAMPLED && w.scratch && |ring| > |old(ring)| ==>
        && stacks.Model() == Publish(old(stacks.Model()), w.cpu, w.capture, w.frames).0
        && ring[|old(ring)|].stackId == Publish(old(stacks.Model()), w.cpu, w.capture, w.frames).1
      ensures !(kind == KIND_LAUNCH_SAMPLED && w.scratch && |ring| > |old(ring)|) ==>
        && stacks.Model() == old(stacks.Model())
        && (|ring| > |old(ring)| ==> ring[|old(ring)|].stackId == -1)
    {
      var size := RecordSize(kind);
      var cap := MaxRecords(kind);
      if size == 0 {
        CountDrop(KIND_UNKNOWN, count);
        return;
      }
      if count == 0 {
        return;
      }
      var n := count;
      if n > cap {
        CountDrop(kind, n - cap);
        n := cap;
      }
      CapFits(kind, n);
      var nbytes := n * size;
      if nbytes > PAYLOAD_BYTES {
        nbytes := PAYLOAD_BYTES;
      }
      if kind != KIND_LAUNCH_SAMPLED {
        EmitPlain(kind, n, seqNo, pid, tid, nbytes, w);
        return;
      }
      if !w.scratch {
        stackMissing := stackMissing + 1;
        EmitPlain(kind, n, seqNo, pid, tid, nbytes, w);
        return;
      }
      parked := Parked(kind, n, nbytes, seqNo);
      SampledWalk(pid, tid, w);
    }
  }

  // ----- The consumer's side.

  datatype Decoded =
    | ShortRecord | PayloadOverrun | NotSingular | BadRecord
    | Batch(kind: uint32, rawCount: uint32, seqNo: uint64, pid: uint32, tid: uint32, stackId: int, records: seq<Bytes>)

  function Signed32(x: nat): int { if x < 0x8000_0000 then x else x - TWO32 }

  /** Decodes one ring sample. accepts stands for the per-kind record decoders. Each refusal
      is made for its own cause, in this order, and nothing else is refused. */
  method DecodeBatch(b: Bytes, accepts: (uint32, Bytes) -> bool) returns (r: Decoded)
    ensures r.ShortRecord? <==> Headless(b) || TooFew(b)
    ensures r.PayloadOverrun? <==> Overrun(b)
    ensures r.NotSingular? <==> Plural(b)
    ensures r.BadRecord? <==> !Refused(b) && HasBad(b[HDR_SIZE..], Kind(b), Records(b), accepts)
    ensures r.Batch? ==>
      && |b| >= HDR_SIZE
      && r.kind == Field(b, 0, 4) && r.rawCount == Field(b, 4, 4) && r.seqNo == Field(b, 8, 8)
      && r.pid == Field(b, 16, 4) && r.tid == Field(b, 20, 4) && r.stackId == Signed32(Field(b, 32, 4))
      && Chunks(b[HDR_SIZE..], RecordSize(r.kind), Records(b), r.records)
  {
    if |b| < HDR_SIZE {
      return ShortRecord;
    }
    FieldBounds(b);
    var kind, count := Field(b, 0, 4), Field(b, 4, 4);
    var nbytes := Field(b, 24, 8);
    if nbytes >= 0x8000_0000_0000_0000 || nbytes > |b| - HDR_SIZE {
      return PayloadOverrun;
    }
    var size := RecordSize(kind);
    var records: seq<Bytes> := [];
    if size > 0 {
      if kind == KIND_LAUNCH_SAMPLED && count != 1 {
        return NotSingular;
      }
      DivFits(nbytes, size, count);
      if count > nbytes / size {
        return ShortRecord;
      }
      var ok;
      records, ok := DecodeRecords(b[HDR_SIZE..], kind, count, accepts);
      if !ok {
        return BadRecord;
      }
    }
    return Batch(kind, count, Field(b, 8, 8), Field(b, 16, 4), Field(b, 20, 4), Signed32(Field(b, 32, 4)), records);
  }

  /** The per-kind loop: one record after another until one is rejected. */
  method DecodeRecords(payload: Bytes, kind: uint32, count: nat, accepts: (uint32, Bytes) -> bool)
    returns (records: seq<Bytes>, ok: bool)
    requires count * RecordSize(kind) <= |payload|
    ensures ok <==> !HasBad(payload, kind, count, accepts)
    ensures ok ==> Chunks(payload, RecordSize(kind), count, records)
  {
    records := [];
    var size := RecordSize(kind);
    for i := 0 to count
      invariant |records| == i
      invariant forall k :: 0 <= k < i ==> ChunkAt(payload, size, records, k)
      invariant forall k :: 0 <= k < i ==> !IsBad(payload, kind, k, accepts)
    {
      MulFits(i, count, size);
      var rec := payload[i * size..(i + 1) * size];
      if !accepts(kind, rec) {
        assert IsBad(payload, kind, i, accepts);
        return records, false;
      }
      ghost var before := records;
      records := records + [rec];
      assert forall k :: 0 <= k < i ==> ChunkAt(payload, size, before, k) && records[k] == before[k];
    }
    return records, true;
  }

  ghost predicate Headless(b: Bytes) { |b| < HDR_SIZE }

  /** The header claims more payload than there is, or a negative amount. */
  ghost predicate Overrun(b: Bytes) {
    !Headless(b) && (Field(b, 24, 8) >= 0x8000_0000_0000_0000 || Field(b, 24, 8) > |b| - HDR_SIZE)
  }

  /** Sampled launches come one at a time. */
  ghost predicate Plural(b: Bytes) {
    !Headless(b) && !Overrun(b) && Field(b, 0, 4) == KIND_LAUNCH_SAMPLED && Field(b, 4, 4) != 1
  }

  /** The payload claimed does not hold the records claimed. */
  ghost predicate TooFew(b: Bytes) {
    !Headless(b) && !Overrun(b) && !Plural(b) && Field(b, 4, 4) * RecordSize(Kind(b)) > Field(b, 24, 8)
  }

  /** Refused for its header alone. */
  ghost predicate Refused(b: Bytes) { Headless(b) || Overrun(b) || Plural(b) || TooFew(b) }

  /** How many records are decoded: none of a kind the consumer does not know. */
  ghost function Records(b: Bytes): nat
    requires |b| >= HDR_SIZE
  {
    if RecordSize(Kind(b)) == 0 then 0 else Field(b, 4, 4)
  }

  ghost predicate IsBad(b: Bytes, kind: uint32, i: nat, accepts: (uint32, Bytes) -> bool) {
    var size := RecordSize(kind);
    0 <= i * size <= (i + 1) * size <= |b| && !accepts(kind, b[i * size..(i + 1) * size])
  }

  /** One of the first count records is one its decoder rejects. */
  ghost predicate HasBad(b: Bytes, kind: uint32, count: nat, accepts: (uint32, Bytes) -> bool) {
    exists i :: 0 <= i < count && IsBad(b, kind, i, accepts)
  }

  function Kind(b: Bytes): uint32
    requires |b| >= HDR_SIZE
  {
    FieldBound(b, 0, 4);
    Field(b, 0, 4)
  }

  /** records are the first n size-byte pieces of b, in order. */
  ghost predicate Chunks(b: Bytes, size: nat, n: nat, records: seq<Bytes>) {
    && |records| == n
    && forall i :: 0 <= i < n ==> ChunkAt(b, size, records, i)
  }

  ghost predicate ChunkAt(b: Bytes, size: nat, records: seq<Bytes>, i: nat)
    requires i < |records|
  {
    0 <= i * size <= (i + 1) * size <= |b| && records[i] == b[i * size..(i + 1) * size]
  }

  lemma FieldBounds(b: Bytes)
    requires |b| >= HDR_SIZE
    ensures Field(b, 0, 4) < TWO32 && Field(b, 4, 4) < TWO32 && Field(b, 8, 8) < TWO64
    ensures Field(b, 16, 4) < TWO32 && Field(b, 20, 4) < TWO32 && Field(b, 32, 4) < TWO32
  {
    FieldBound(b, 0, 4);
    FieldBound(b, 4, 4);
    FieldBound(b, 8, 8);
    FieldBound(b, 16, 4);
    FieldBound(b, 20, 4);
    FieldBound(b, 32, 4);
  }

  lemma DivFits(len: nat, size: nat, count: nat)
    requires size > 0
    ensures count <= len / size <==> count * size <= len
  {
    if count <= len / size {
      assert count * size <= (len / size) * size;
    } else {
      assert count * size >= (len / size + 1) * size;
    }
  }

  lemma MulFits(i: nat, count: nat, size: nat)
    requires i < count
    ensures 0 <= i * size <= (i + 1) * size <= count * size
  {
  }

  function MarshalHead(m: Msg): (r: Bytes)
    ensures |r| == 24
  {
    LeBytes(m.kind, 4) + LeBytes(m.count, 4) + LeBytes(m.seqNo, 8) + LeBytes(m.pid, 4) + LeBytes(m.tid, 4)
  }

  function MarshalMsg(m: Msg): (r: Bytes)
    ensures |r| == HDR_SIZE + |m.payload|
  {
    MarshalHead(m) + LeBytes(m.nbytes, 8) + LeBytes(m.stackId % TWO32, 4) + LeBytes(0, 4) + m.payload
  }

  lemma HeadFields(m: Msg, b: Bytes)
    requires |b| >= 24 && b[..24] == MarshalHead(m)
    ensures Field(b, 0, 4) == m.kind && Field(b, 4, 4) == m.count && Field(b, 8, 8) == m.seqNo
    ensures Field(b, 16, 4) == m.pid && Field(b, 20, 4) == m.tid
  {
    var h := MarshalHead(m);
    Parts(LeBytes(m.kind, 4), LeBytes(m.count, 4), LeBytes(m.seqNo, 8), LeBytes(m.pid, 4), LeBytes(m.tid, 4));
    SubSlice(b, 24, 0, 4);
    SubSlice(b, 24, 4, 8);
    SubSlice(b, 24, 8, 16);
    SubSlice(b, 24, 16, 20);
    SubSlice(b, 24, 20, 24);
    assert h[20..24] == LeBytes(m.tid, 4);
    WordAt(b, 0, m.kind, 4);
    WordAt(b, 4, m.count, 4);
    WordAt(b, 8, m.seqNo, 8);
    WordAt(b, 16, m.pid, 4);
    WordAt(b, 20, m.tid, 4);
  }

  lemma SubSlice(b: Bytes, n: nat, i: nat, j: nat)
    requires i <= j <= n <= |b|
    ensures b[i..j] == b[..n][i..j]
  {
  }

  /** Every header field comes back as it was written. */
  lemma MsgFields(m: Msg)
    requires -0x8000_0000 <= m.stackId < 0x8000_0000
    ensures var b := MarshalMsg(m);
      && Field(b, 0, 4) == m.kind && Field(b, 4, 4) == m.count && Field(b, 8, 8) == m.seqNo
      && Field(b, 16, 4) == m.pid && Field(b, 20, 4) == m.tid && Field(b, 24, 8) == m.nbytes
      && Signed32(Field(b, 32, 4)) == m.stackId
      && b[HDR_SIZE..] == m.payload
  {
    var b := MarshalMsg(m);
    var id := m.stackId % TWO32;
    Parts(MarshalHead(m), LeBytes(m.nbytes, 8), LeBytes(id, 4), LeBytes(0, 4), m.payload);
    HeadFields(m, b);
    WordAt(b, 24, m.nbytes, 8);
    WordAt(b, 32, id, 4);
    assert Signed32(id) == m.stackId;
  }

  /** Whatever a fire submits, the consumer never refuses for its length, and recovers
      exactly its records; only a record decoder can still object. */
  method Receive(m: Msg, accepts: (uint32, Bytes) -> bool) returns (r: Decoded)
    requires Sound(m)
    ensures r.Batch? || (r.BadRecord? && HasBad(m.payload, m.kind, m.count, accepts))
    ensures r.Batch? ==>
      && (r.kind, r.rawCount, r.seqNo, r.pid, r.tid, r.stackId) == (m.kind, m.count, m.seqNo, m.pid, m.tid, m.stackId)
      && Chunks(m.payload, RecordSize(m.kind), m.count, r.records)
  {
    MsgFields(m);
    r := DecodeBatch(MarshalMsg(m), accepts);
  }
}
