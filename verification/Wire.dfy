/** The byte layouts both sides of the probe agree on (bpf/gpu_usdt.bpf.c,
    gpuprobe/consumer.go): little-endian words, the stack value, the batch message. */
module Wire {
  import opened Machine

  type Bytes = seq<uint8>

  // ----- Little-endian words.

  function LeBytes(x: nat, n: nat): (r: Bytes)
    ensures |r| == n
  {
    if n == 0 then [] else [x % 256] + LeBytes(x / 256, n - 1)
  }

  function LeValue(b: Bytes): nat {
    if b == [] then 0 else b[0] + 256 * LeValue(b[1..])
  }

  function Pow256(n: nat): nat { if n == 0 then 1 else 256 * Pow256(n - 1) }

  lemma {:induction false} LeRoundTrip(x: nat, n: nat)
    requires x < Pow256(n)
    ensures LeValue(LeBytes(x, n)) == x
  {
    if n > 0 {
      LeRoundTrip(x / 256, n - 1);
      assert LeBytes(x, n)[1..] == LeBytes(x / 256, n - 1);
    }
  }

  lemma Pow256Values()
    ensures Pow256(4) == TWO32 && Pow256(8) == TWO64
  {
    assert Pow256(2) == 0x1_0000;
    assert Pow256(4) == 0x1_0000 * Pow256(2);
    assert Pow256(6) == 0x1_0000 * Pow256(4);
    assert Pow256(8) == 0x1_0000 * Pow256(6);
  }

  /** A word survives the trip wherever in a message it is written. */
  lemma WordAt(b: Bytes, off: nat, x: nat, n: nat)
    requires off + n <= |b| && b[off..off + n] == LeBytes(x, n)
    requires (n == 4 && x < TWO32) || (n == 8 && x < TWO64)
    ensures LeValue(b[off..off + n]) == x
  {
    Pow256Values();
    LeRoundTrip(x, n);
  }

  function Field(b: Bytes, off: nat, n: nat): nat
    requires off + n <= |b|
  {
    LeValue(b[off..off + n])
  }

  // ----- One captured stack.

  const MAX_FRAMES: int := 127
  const STACK_HDR: int := 8
  const STACK_TAGS_OFF: int := STACK_HDR + MAX_FRAMES * 8
  const STACK_SIZE: int := STACK_TAGS_OFF + MAX_FRAMES + 1

  function WordsBytes(ws: seq<uint64>): (r: Bytes)
    ensures |r| == 8 * |ws|
  {
    if ws == [] then [] else LeBytes(ws[0], 8) + WordsBytes(ws[1..])
  }

  lemma {:induction false} WordsBytesAt(ws: seq<uint64>, i: nat)
    requires i < |ws|
    ensures WordsBytes(ws)[8 * i..8 * i + 8] == LeBytes(ws[i], 8)
  {
    if i > 0 {
      WordsBytesAt(ws[1..], i - 1);
      assert WordsBytes(ws)[8 * i..8 * i + 8] == WordsBytes(ws[1..])[8 * (i - 1)..8 * (i - 1) + 8];
    }
  }

  /** The map value a capture publishes: the count, the flags, and both arrays whole,
      whatever lies beyond the count. */
  function MarshalStack(n: uint32, flags: uint32, pcs: seq<uint64>, tags: Bytes): (r: Bytes)
    requires |pcs| == MAX_FRAMES && |tags| == MAX_FRAMES
    ensures |r| == STACK_SIZE
  {
    LeBytes(n, 4) + LeBytes(flags, 4) + WordsBytes(pcs) + tags + [0]
  }

  /** Where the parts of a concatenation lie. */
  lemma Parts<T>(a: seq<T>, b: seq<T>, c: seq<T>, d: seq<T>, e: seq<T>)
    ensures var r := a + b + c + d + e;
      && r[..|a|] == a
      && r[|a|..|a| + |b|] == b
      && r[|a| + |b|..|a| + |b| + |c|] == c
      && r[|a| + |b| + |c|..|a| + |b| + |c| + |d|] == d
  {
  }

  lemma MarshalLayout(n: uint32, flags: uint32, pcs: seq<uint64>, tags: Bytes)
    requires |pcs| == MAX_FRAMES && |tags| == MAX_FRAMES
    ensures var raw := MarshalStack(n, flags, pcs, tags);
      && raw[0..4] == LeBytes(n, 4) && raw[4..8] == LeBytes(flags, 4)
      && raw[STACK_HDR..STACK_TAGS_OFF] == WordsBytes(pcs)
      && raw[STACK_TAGS_OFF..STACK_TAGS_OFF + MAX_FRAMES] == tags
  {
    Parts(LeBytes(n, 4), LeBytes(flags, 4), WordsBytes(pcs), tags, [0]);
  }

  /** The consumer's reading of a stack value. */
  method DecodeGPUStack(raw: Bytes) returns (pcs: seq<uint64>, tags: Bytes, flags: uint32, ok: bool)
    ensures ok <==> |raw| >= STACK_SIZE
    ensures ok ==>
      && |pcs| == |tags| == Min(Field(raw, 0, 4), MAX_FRAMES)
      && flags == Field(raw, 4, 4)
      && (forall i :: 0 <= i < |pcs| ==> pcs[i] == Field(raw, STACK_HDR + 8 * i, 8))
      && (forall i :: 0 <= i < |tags| ==> tags[i] == raw[STACK_TAGS_OFF + i])
  {
    pcs, tags, flags := [], [], 0;
    if |raw| < STACK_SIZE {
      return pcs, tags, flags, false;
    }
    FieldBound(raw, 0, 4);
    FieldBound(raw, 4, 4);
    var n := Field(raw, 0, 4);
    flags := Field(raw, 4, 4);
    if n > MAX_FRAMES {
      n := MAX_FRAMES;
    }
    for i := 0 to n
      invariant |pcs| == |tags| == i
      invariant forall k :: 0 <= k < i ==> pcs[k] == Field(raw, STACK_HDR + 8 * k, 8)
      invariant forall k :: 0 <= k < i ==> tags[k] == raw[STACK_TAGS_OFF + k]
    {
      FieldBound(raw, STACK_HDR + 8 * i, 8);
      pcs := pcs + [Field(raw, STACK_HDR + 8 * i, 8)];
      tags := tags + [raw[STACK_TAGS_OFF + i]];
    }
    ok := true;
  }

  lemma {:induction false} LeValueBound(b: Bytes)
    ensures LeValue(b) < Pow256(|b|)
  {
    if b != [] {
      LeValueBound(b[1..]);
    }
  }

  lemma FieldBound(raw: Bytes, off: nat, n: nat)
    requires off + n <= |raw| && (n == 4 || n == 8)
    ensures Field(raw, off, n) < if n == 4 then TWO32 else TWO64
  {
    Pow256Values();
    LeValueBound(raw[off..off + n]);
  }

  /** What decoding a published stack recovers, field by field: exactly the slots below the
      count. Slots above it, left over from an earlier sample, are invisible. */
  lemma StackRoundTrip(n: uint32, flags: uint32, pcs: seq<uint64>, tags: Bytes)
    requires |pcs| == MAX_FRAMES && |tags| == MAX_FRAMES && n <= MAX_FRAMES
    ensures var raw := MarshalStack(n, flags, pcs, tags);
      && Field(raw, 0, 4) == n && Field(raw, 4, 4) == flags
      && (forall i :: 0 <= i < n ==> Field(raw, STACK_HDR + 8 * i, 8) == pcs[i])
      && (forall i :: 0 <= i < n ==> raw[STACK_TAGS_OFF + i] == tags[i])
  {
    var raw := MarshalStack(n, flags, pcs, tags);
    MarshalLayout(n, flags, pcs, tags);
    WordAt(raw, 0, n, 4);
    WordAt(raw, 4, flags, 4);
    forall i | 0 <= i < n ensures Field(raw, STACK_HDR + 8 * i, 8) == pcs[i] {
      PcRoundTrip(n, flags, pcs, tags, i);
    }
    forall i | 0 <= i < n ensures raw[STACK_TAGS_OFF + i] == tags[i] {
      assert raw[STACK_TAGS_OFF..STACK_TAGS_OFF + MAX_FRAMES][i] == raw[STACK_TAGS_OFF + i];
    }
  }

  lemma SliceOfSlice<T>(s: seq<T>, lo: nat, hi: nat, a: nat, b: nat)
    requires lo <= hi <= |s| && a <= b <= hi - lo
    ensures s[lo..hi][a..b] == s[lo + a..lo + b]
  {
    var outer, inner := s[lo..hi], s[lo + a..lo + b];
    forall i | 0 <= i < b - a ensures outer[a..b][i] == inner[i] {
      assert outer[a..b][i] == outer[a + i] == s[lo + (a + i)];
    }
  }

  lemma PcRoundTrip(n: uint32, flags: uint32, pcs: seq<uint64>, tags: Bytes, i: nat)
    requires |pcs| == MAX_FRAMES && |tags| == MAX_FRAMES && i < MAX_FRAMES
    ensures |MarshalStack(n, flags, pcs, tags)| >= STACK_HDR + 8 * i + 8
    ensures Field(MarshalStack(n, flags, pcs, tags), STACK_HDR + 8 * i, 8) == pcs[i]
  {
    MarshalLayout(n, flags, pcs, tags);
    WordOfWords(MarshalStack(n, flags, pcs, tags), pcs, i, 8);
  }

  lemma WordOfWords(raw: Bytes, pcs: seq<uint64>, i: nat, width: nat)
    requires width == 8 && i < |pcs| == MAX_FRAMES && |raw| == STACK_SIZE
    requires raw[STACK_HDR..STACK_TAGS_OFF] == WordsBytes(pcs)
    ensures Field(raw, STACK_HDR + 8 * i, width) == pcs[i]
  {
    WordsBytesAt(pcs, i);
    SliceOfSlice(raw, STACK_HDR, STACK_TAGS_OFF, 8 * i, 8 * i + width);
    WordAt(raw, STACK_HDR + 8 * i, pcs[i], width);
  }
}
