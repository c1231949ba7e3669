/** From a finished walk to what userspace sees of it: publishing the per-CPU record and
    reading it back (bpf/gpu_usdt.bpf.c, gpuprobe/consumer.go). */
module Capture {
  import opened Machine
  import opened Unwind
  import opened Handoff
  import W = Wire

  // ----- Flags as the bitmask both sides share.

  /** Bit positions, lowest first. */
  const POSITIONS: seq<Flag> :=
    [FpTerminated, DwarfUsed, CfiMiss, RaUndefined, FpExhausted, FpNonmonotonic, RootDisagreement,
     FramePushRefused, RaZero]

  function Position(f: Flag): (i: nat)
    ensures i < |POSITIONS| && POSITIONS[i] == f
  {
    match f
    case FpTerminated => 0
    case DwarfUsed => 1
    case CfiMiss => 2
    case RaUndefined => 3
    case FpExhausted => 4
    case FpNonmonotonic => 5
    case RootDisagreement => 6
    case FramePushRefused => 7
    case RaZero => 8
  }

  function Bits(flags: set<Flag>, at: seq<Flag>): nat {
    if at == [] then 0 else (if at[0] in flags then 1 else 0) + 2 * Bits(flags, at[1..])
  }

  function FlagBits(flags: set<Flag>): uint32 {
    BitsBound(flags, POSITIONS);
    Bits(flags, POSITIONS)
  }

  predicate BitSet(x: nat, i: nat) { if i == 0 then x % 2 == 1 else BitSet(x / 2, i - 1) }

  predicate HasBit(bits: uint32, f: Flag) { BitSet(bits, Position(f)) }

  lemma {:induction false} BitsBound(flags: set<Flag>, at: seq<Flag>)
    requires |at| <= 9
    ensures Bits(flags, at) < TWO32
    ensures Bits(flags, at) < [1, 2, 4, 8, 16, 32, 64, 128, 256, 512][|at|]
  {
    if at != [] {
      BitsBound(flags, at[1..]);
    }
  }

  lemma {:induction false} BitsAt(flags: set<Flag>, at: seq<Flag>, i: nat)
    requires i < |at|
    ensures BitSet(Bits(flags, at), i) <==> at[i] in flags
  {
    if i > 0 {
      assert Bits(flags, at) / 2 == Bits(flags, at[1..]);
      BitsAt(flags, at[1..], i - 1);
    }
  }

  /** No flag shadows another on the wire. */
  lemma FlagsRoundTrip(flags: set<Flag>, f: Flag)
    ensures HasBit(FlagBits(flags), f) <==> f in flags
  {
    BitsAt(flags, POSITIONS, Position(f));
  }

  // ----- The record.

  /** Publish a record of n slots and decode the published value: userspace recovers exactly
      the slots this sample pushed and its flags, whatever an earlier sample left in the
      scratch record above them. */
  method ReadBack(rec: SampleRecord, n: nat) returns (pcs: seq<uint64>, tags: W.Bytes, bits: uint32, ok: bool)
    requires rec.Valid() && n <= MAX_FRAMES
    ensures ok && |tags| == |pcs| && Tagged(pcs, tags) == rec.Slots(n)
    ensures forall f :: HasBit(bits, f) <==> f in rec.flags
  {
    var raw := W.MarshalStack(n, FlagBits(rec.flags), rec.pcs[..], rec.tags[..]);
    W.StackRoundTrip(n, FlagBits(rec.flags), rec.pcs[..], rec.tags[..]);
    pcs, tags, bits, ok := W.DecodeGPUStack(raw);
    forall f ensures HasBit(bits, f) <==> f in rec.flags {
      FlagsRoundTrip(rec.flags, f);
    }
  }

  /** A whole record read back splits into the frames that were pushed, none cut in half. */
  method ReadFrames(rec: SampleRecord, n: nat) returns (items: seq<Item>)
    requires rec.Valid() && n <= MAX_FRAMES && Whole(rec.Slots(n))
    ensures items == Split(rec.Slots(n)).0
  {
    var pcs, tags, bits, ok := ReadBack(rec, n);
    var truncated;
    items, truncated := SplitSlots(pcs, tags);
  }
}
