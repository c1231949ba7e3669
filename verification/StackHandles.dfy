/** Minted stack handles between any number of capturing CPUs and one consumer
    (bpf/gpu_usdt.bpf.c, gpuprobe/consumer.go). */
module StackHandles {
  import opened Machine

  const SEQ_VALUES: int := 0x4_0000      // 18 bits of per-CPU sequence
  const CPU_VALUES: int := 0x2000        // 13 bits of CPU index
  const MAP_CAPACITY: int := 4096

  /** A handle from a CPU index and its counter, both reduced to their bit fields. */
  function Handle(cpu: nat, n: uint32): (id: nat)
    ensures id < 0x8000_0000
  {
    (cpu % CPU_VALUES) * SEQ_VALUES + n % SEQ_VALUES
  }

  /** Handles collide exactly when both fields do: two CPUs with the same index modulo 8192,
      at counters a multiple of 2^18 captures apart. */
  lemma HandlesCollideIff(cpu: nat, n: uint32, cpu': nat, m: uint32)
    ensures Handle(cpu, n) == Handle(cpu', m) <==>
      cpu % 8192 == cpu' % 8192 && n % 262144 == m % 262144
  {
    var a, b := cpu % CPU_VALUES, cpu' % CPU_VALUES;
    var x, y := n % SEQ_VALUES, m % SEQ_VALUES;
    if Handle(cpu, n) == Handle(cpu', m) {
      assert (a - b) * SEQ_VALUES == y - x;
      assert a == b;
    }
  }

  // ----- Publishing one capture.

  /** What a CPU's program owns, and the map both sides share. A capture is whatever its
      walk produced. */
  datatype Stacks<C> = Stacks(counters: map<nat, uint32>, entries: map<int, C>)

  function Counter<C>(s: Stacks<C>, cpu: nat): uint32 { if cpu in s.counters then s.counters[cpu] else 0 }

  /** Publishing never overwrites: a live handle, a full map or an empty walk yields -1. */
  function Publish<C>(s: Stacks<C>, cpu: nat, capture: C, frames: nat): (Stacks<C>, int) {
    var refused: int := -1;
    if frames == 0 then (s, refused)
    else
      var n := (Counter(s, cpu) + 1) % TWO32;
      var id: int := Handle(cpu, n);
      var minted := s.(counters := s.counters[cpu := n]);
      if id in s.entries || |s.entries| >= MAP_CAPACITY then (minted, refused)
      else (minted.(entries := s.entries[id := capture]), id)
  }

  /** A capture that walked anything is published, under its CPU's next handle, exactly when
      fewer than 4096 stacks wait and none under that handle; every walk that did advances its
      own CPU's counter, and nothing else changes. */
  lemma PublishIff<C>(s: Stacks<C>, cpu: nat, capture: C, frames: nat)
    ensures var (t, id) := Publish(s, cpu, capture, frames);
      var was: int := if cpu in s.counters then s.counters[cpu] else 0;
      var n := was + 1;
      var next := (cpu % 8192) * 262144 + n % 262144;
      && (id == -1 || id == next)
      && (id == next <==> frames > 0 && |s.entries| < 4096 && next !in s.entries)
      && t.entries == (if id == -1 then s.entries else s.entries[next := capture])
      && t.counters == (if frames > 0 then s.counters[cpu := n % 0x1_0000_0000] else s.counters)
  {
    var was: int := if cpu in s.counters then s.counters[cpu] else 0;
    var n := was + 1;
    assert (n % TWO32) % SEQ_VALUES == n % SEQ_VALUES;
  }

  /** The handle a capture would get is still in use. */
  predicate Taken<C>(s: Stacks<C>, cpu: nat, frames: nat) {
    frames > 0 && Handle(cpu, (Counter(s, cpu) + 1) % TWO32) in s.entries
  }

  class StackMap<C(==)> {
    var counters: map<nat, uint32>
    var entries: map<int, C>
    var walkEmpty: nat
    var mapFull: nat
    var updateFailed: nat

    constructor ()
      ensures counters == map[] && entries == map[] && walkEmpty == mapFull == updateFailed == 0
    {
      counters, entries, walkEmpty, mapFull, updateFailed := map[], map[], 0, 0, 0;
    }

    function Model(): Stacks<C>
      reads this`counters, this`entries
    {
      Stacks(counters, entries)
    }

    method NextStackId(cpu: nat) returns (id: nat)
      modifies this`counters
      ensures counters == old(counters)[cpu := (Counter(Stacks(old(counters), old(entries)), cpu) + 1) % TWO32]
      ensures id == Handle(cpu, counters[cpu])
    {
      var n := Counter(Stacks(counters, entries), cpu);
      n := (n + 1) % TWO32;
      counters := counters[cpu := n];
      id := Handle(cpu, n);
    }

    /** Every -1 is counted under exactly one reason. */
    method PublishStack(cpu: nat, capture: C, frames: nat) returns (id: int)
      modifies this
      ensures Model() == Publish(old(Model()), cpu, capture, frames).0
      ensures id == Publish(old(Model()), cpu, capture, frames).1
      ensures walkEmpty == old(walkEmpty) + if frames == 0 then 1 else 0
      ensures updateFailed == old(updateFailed) + if Taken(old(Model()), cpu, frames) then 1 else 0
      ensures mapFull == old(mapFull) + if id < 0 && frames > 0 && !Taken(old(Model()), cpu, frames) then 1 else 0
      ensures mapFull > old(mapFull) ==> |entries| >= MAP_CAPACITY
    {
      if frames == 0 {
        walkEmpty := walkEmpty + 1;
        return -1;
      }
      id := NextStackId(cpu);
      if id in entries {
        updateFailed := updateFailed + 1;
        return -1;
      }
      if |entries| >= MAP_CAPACITY {
        mapFull := mapFull + 1;
        return -1;
      }
      entries := entries[id := capture];
    }
  }

  // ----- The protocol.

  datatype Stage = Busy | Ready | Discarded

  /** One ring record, from reservation on. taken is the capture it announces. */
  datatype Entry<C> = Entry(stage: Stage, id: int, taken: Option<C>)

  /** ring is everything ever reserved, in reservation order, which is the order it is
      consumed in; the records from head on are in flight. at says which one each CPU is
      still filling in. */
  datatype State<C> = State(stacks: Stacks<C>, ring: seq<Entry<C>>, head: nat, at: map<nat, nat>)

  function Init<C>(): State<C> { State(Stacks(map[], map[]), [], 0, map[]) }

  ghost predicate Reserve<C>(s: State<C>, t: State<C>, cpu: nat) {
    cpu !in s.at && t == s.(ring := s.ring + [Entry(Busy, -1, None)], at := s.at[cpu := |s.ring|])
  }

  ghost predicate PublishAt<C(!new)>(s: State<C>, t: State<C>, cpu: nat) {
    && cpu in s.at && s.at[cpu] < |s.ring| && s.ring[s.at[cpu]] == Entry(Busy, -1, None)
    && exists capture: C, frames: nat ::
         var (stacks, id) := Publish(s.stacks, cpu, capture, frames);
         t == s.(stacks := stacks, ring := s.ring[s.at[cpu] := Entry(Busy, id, Some(capture))])
  }

  /** Submitting a record, or discarding one nothing was published for. */
  ghost predicate Settle<C>(s: State<C>, t: State<C>, cpu: nat) {
    && cpu in s.at && s.at[cpu] < |s.ring|
    && var e := s.ring[s.at[cpu]];
       || t == s.(ring := s.ring[s.at[cpu] := e.(stage := Ready)], at := s.at - {cpu})
       || (e.id < 0 && t == s.(ring := s.ring[s.at[cpu] := e.(stage := Discarded)], at := s.at - {cpu}))
  }

  /** The consumer takes the oldest settled record. It may fail to decode it, have nothing
      to read for it, or be unable to pair it; where it frees the slot, the delete may fail. */
  ghost predicate Consume<C>(s: State<C>, t: State<C>) {
    && s.head < |s.ring| && s.ring[s.head].stage != Busy
    && var next := s.(head := s.head + 1);
       || t == next
       || (s.ring[s.head].id >= 0
           && t == next.(stacks := s.stacks.(entries := s.stacks.entries - {s.ring[s.head].id})))
  }

  ghost predicate Next<C(!new)>(s: State<C>, t: State<C>) {
    || (exists cpu: nat :: Reserve(s, t, cpu))
    || (exists cpu: nat :: PublishAt(s, t, cpu))
    || (exists cpu: nat :: Settle(s, t, cpu))
    || Consume(s, t)
  }

  ghost predicate StepAt<C(!new)>(run: seq<State<C>>, i: nat)
    requires 0 < i < |run|
  {
    Next(run[i - 1], run[i])
  }

  ghost predicate IsRun<C(!new)>(run: seq<State<C>>) {
    run != [] && run[0] == Init() && forall i :: 0 < i < |run| ==> StepAt(run, i)
  }

  // ----- Safety.

  ghost predicate OwnEntry<C>(s: State<C>, p: nat)
    requires p < |s.ring|
  {
    var e := s.ring[p];
    e.id >= 0 ==> e.taken.Some? && e.id in s.stacks.entries && s.stacks.entries[e.id] == e.taken.value
  }

  /** Every record in flight still finds its own capture, and no two share a handle. */
  ghost predicate Safe<C>(s: State<C>) {
    && s.head <= |s.ring|
    && (forall p :: s.head <= p < |s.ring| ==> OwnEntry(s, p))
    && (forall p, q :: s.head <= p < q < |s.ring| && s.ring[p].id >= 0 ==> s.ring[p].id != s.ring[q].id)
  }

  lemma PublishSafe<C(!new)>(s: State<C>, t: State<C>, cpu: nat)
    requires Safe(s) && PublishAt(s, t, cpu)
    ensures Safe(t)
  {
    var k := s.at[cpu];
    var capture: C, frames: nat :|
      var (stacks, id) := Publish(s.stacks, cpu, capture, frames);
      t == s.(stacks := stacks, ring := s.ring[k := Entry(Busy, id, Some(capture))]);
    var id := t.ring[k].id;
    forall p | t.head <= p < |t.ring| ensures OwnEntry(t, p) {
      if p != k {
        assert t.ring[p] == s.ring[p] && OwnEntry(s, p);
      }
    }
    forall p, q | t.head <= p < q < |t.ring| && t.ring[p].id >= 0
      ensures t.ring[p].id != t.ring[q].id
    {
      if p == k {
        assert OwnEntry(s, q);
      } else if q == k {
        assert OwnEntry(s, p);
      }
    }
  }

  lemma ConsumeSafe<C>(s: State<C>, t: State<C>)
    requires Safe(s) && Consume(s, t)
    ensures Safe(t)
  {
    forall p | t.head <= p < |t.ring| ensures OwnEntry(t, p) {
      assert OwnEntry(s, p);
    }
  }

  lemma SettleSafe<C>(s: State<C>, t: State<C>, cpu: nat)
    requires Safe(s) && (Settle(s, t, cpu) || Reserve(s, t, cpu))
    ensures Safe(t)
  {
    forall p | t.head <= p < |t.ring| ensures OwnEntry(t, p) {
      if p < |s.ring| {
        assert OwnEntry(s, p);
      }
    }
  }

  lemma StepSafe<C(!new)>(s: State<C>, t: State<C>)
    requires Safe(s) && Next(s, t)
    ensures Safe(t)
  {
    if cpu: nat :| Reserve(s, t, cpu) {
      SettleSafe(s, t, cpu);
    } else if cpu: nat :| PublishAt(s, t, cpu) {
      PublishSafe(s, t, cpu);
    } else if cpu: nat :| Settle(s, t, cpu) {
      SettleSafe(s, t, cpu);
    } else {
      ConsumeSafe(s, t);
    }
  }

  lemma {:induction false} RunSafe<C(!new)>(run: seq<State<C>>, i: nat)
    requires IsRun(run) && i < |run|
    ensures Safe(run[i])
  {
    if i > 0 {
      RunSafe(run, i - 1);
      assert StepAt(run, i);
      StepSafe(run[i - 1], run[i]);
    }
  }

  /** Stack handle safety: under every interleaving of captures on any CPUs (counters
      wrapping, indices aliasing) with consumption, failed deletes and malformed batches,
      the entry the consumer reads for a batch is that batch's own capture. */
  lemma ConsumerReadsOwnCapture<C(!new)>(run: seq<State<C>>, i: nat)
    requires IsRun(run) && i < |run|
    requires run[i].head < |run[i].ring| && run[i].ring[run[i].head].id >= 0
    ensures var e := run[i].ring[run[i].head];
      e.id in run[i].stacks.entries && e.taken == Some(run[i].stacks.entries[e.id])
  {
    RunSafe(run, i);
    assert OwnEntry(run[i], run[i].head);
  }

  /** No two batches in flight carry the same handle. */
  lemma InFlightDistinct<C(!new)>(run: seq<State<C>>, i: nat, p: nat, q: nat)
    requires IsRun(run) && i < |run|
    requires run[i].head <= p < q < |run[i].ring| && run[i].ring[p].id >= 0
    ensures run[i].ring[p].id != run[i].ring[q].id
  {
    RunSafe(run, i);
  }
}
