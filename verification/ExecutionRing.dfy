/** The ring executions wait in and the spare a snapshot swaps it for (gpu/timeline.go),
    and exactly-once delivery over every interleaving of emits and snapshots. */
module ExecutionRing {
  import opened Machine

  // ----- One ring.

  function Slot(start: nat, i: nat, capacity: nat): (r: nat)
    requires start < capacity && i <= capacity
    ensures r == if start + i < capacity then start + i else start + i - capacity
  {
    WrapOnce(start + i, capacity);
    (start + i) % capacity
  }

  lemma WrapOnce(x: nat, m: nat)
    requires 0 < m && x < 2 * m
    ensures x % m == if x < m then x else x - m
  {
    var q := x / m;
    assert x == m * q + x % m;
    assert q < 2;
  }

  predicate InUse(start: nat, count: nat, capacity: nat, j: nat)
    requires start < capacity && count <= capacity && j < capacity
  {
    if j >= start then j - start < count else j + capacity - start < count
  }

  class Ring<T> {
    const zero: T
    const buf: array<T>
    var start: nat
    var count: nat

    predicate Shaped() reads this { start < buf.Length && count <= buf.Length }

    ghost predicate Valid()
      reads this, buf
    {
      && Shaped()
      // A slot not in use holds nothing.
      && (forall j :: 0 <= j < buf.Length && !InUse(start, count, buf.Length, j) ==> buf[j] == zero)
    }

    /** What the ring holds, oldest first. */
    ghost function Contents(): seq<T>
      requires Shaped()
      reads this, buf
    {
      seq(count, i requires 0 <= i < count && Shaped() reads this, buf => buf[Slot(start, i, buf.Length)])
    }

    constructor (capacity: int, zero: T)
      ensures Valid() && Contents() == [] && fresh(buf)
      ensures buf.Length == Max(capacity, 1) && this.zero == zero
      ensures forall j :: 0 <= j < buf.Length ==> buf[j] == zero
    {
      this.zero := zero;
      buf := new T[if capacity <= 0 then 1 else capacity](_ => zero);
      start, count := 0, 0;
    }

    method Push(v: T) returns (evicted: bool)
      requires Valid()
      modifies this, buf
      ensures Valid()
      ensures evicted == (|old(Contents())| == buf.Length)
      ensures Contents() == (if evicted then old(Contents())[1..] else old(Contents())) + [v]
    {
      ghost var was := Contents();
      var capacity := buf.Length;
      evicted := count == capacity;
      if !evicted {
        buf[Slot(start, count, capacity)] := v;
        count := count + 1;
        assert Contents() == was + [v];
      } else {
        buf[start] := v;
        start := Slot(start, 1, capacity);
        assert Contents() == was[1..] + [v];
      }
    }

    method Items() returns (out: seq<T>)
      requires Valid()
      ensures out == Contents()
    {
      out := [];
      for i := 0 to count
        invariant out == Contents()[..i]
      {
        out := out + [buf[Slot(start, i, buf.Length)]];
      }
    }

    /** Empties the ring and drops every reference it held. */
    method Reset()
      requires Valid()
      modifies this, buf
      ensures Valid() && Contents() == []
      ensures forall j :: 0 <= j < buf.Length ==> buf[j] == zero
    {
      var capacity := buf.Length;
      if start + count <= capacity {
        Clear(start, start + count);
      } else {
        Clear(start, capacity);
        Clear(0, start + count - capacity);
      }
      start, count := 0, 0;
    }

    method Clear(from: nat, to: nat)
      requires from <= to <= buf.Length
      modifies buf
      ensures forall j :: 0 <= j < buf.Length ==> buf[j] == if from <= j < to then zero else old(buf[j])
    {
      for k := from to to
        invariant forall j :: 0 <= j < buf.Length ==> buf[j] == if from <= j < k then zero else old(buf[j])
      {
        buf[k] := zero;
      }
    }
  }

  // ----- The ring in use and its spare.

  class Rings<T> {
    const zero: T
    const capacity: nat
    var cur: Ring<T>
    var spare: Ring?<T>
    var evictedExecutions: nat
    // Everything that ever went through, for the delivery theorem.
    ghost var log: Pipeline<T>

    ghost predicate Apart(r: Ring<T>)
      reads this
    {
      cur != r && cur.buf != r.buf
    }

    /** The spare, when there is one, is empty, zeroed, and shares nothing with the ring in use. */
    ghost predicate SpareClean()
      reads this, spare, if spare == null then {} else {spare.buf}
    {
      spare != null ==>
        && spare.Valid() && spare.zero == zero && spare.Contents() == [] && Apart(spare)
        && (forall j :: 0 <= j < spare.buf.Length ==> spare.buf[j] == zero)
    }

    ghost predicate Valid()
      reads this, cur, cur.buf, spare, if spare == null then {} else {spare.buf}
    {
      && cur.Valid() && cur.buf.Length == capacity && cur.zero == zero
      && SpareClean()
      && log.held == cur.Contents() && log.evicted == evictedExecutions
    }

    constructor (capacity: int, zero: T)
      ensures Valid() && log == Start() && spare == null && fresh(cur) && fresh(cur.buf)
    {
      this.zero := zero;
      this.capacity := if capacity <= 0 then 1 else capacity;
      cur := new Ring(capacity, zero);
      spare, evictedExecutions, log := null, 0, Start();
    }

    method EmitExec(v: T)
      requires Valid()
      modifies this`evictedExecutions, this`log, cur, cur.buf
      ensures Valid() && log == Next(capacity, old(log), Emit(v))
    {
      var evicted := cur.Push(v);
      if evicted {
        evictedExecutions := evictedExecutions + 1;
      }
      log := Next(capacity, log, Emit(v));
    }

    /** First critical section: the filled ring leaves, an empty one takes its place. */
    method Swap() returns (was: Ring<T>)
      requires Valid() && log.inFlight == []
      modifies this
      ensures Valid() && log == Next(capacity, old(log), SwapOut)
      ensures was == old(cur) && was.Valid() && was.zero == zero && was.Contents() == log.inFlight
      ensures Apart(was) && spare == null
      ensures forall j :: 0 <= j < cur.buf.Length ==> cur.buf[j] == zero
      ensures cur == old(spare) || (fresh(cur) && fresh(cur.buf))
    {
      was := cur;
      if spare == null || spare.buf.Length != was.buf.Length {
        cur := new Ring(was.buf.Length, zero);
      } else {
        cur := spare;
      }
      spare := null;
      log := Next(capacity, log, SwapOut);
    }

    /** Outside the lock: the contents are copied out and the ring becomes the spare.
        Whatever was emitted meanwhile is untouched. */
    method Retire(was: Ring<T>) returns (items: seq<T>)
      requires Valid() && was.Valid() && was.zero == zero && was.Contents() == log.inFlight
      requires Apart(was) && spare == null
      modifies this`spare, this`log, was, was.buf
      ensures Valid() && log == Next(capacity, old(log), HandOut)
      ensures spare == was && items == old(log).inFlight
      ensures cur.Contents() == old(cur.Contents())
    {
      items := was.Items();
      was.Reset();
      spare := was;
      log := Next(capacity, log, HandOut);
    }
  }

  // ----- Exactly-once delivery.

  /** emitted is everything handed in; delivered, everything snapshots handed out. */
  datatype Pipeline<T> = Pipeline(emitted: seq<T>, delivered: seq<T>, inFlight: seq<T>, held: seq<T>, evicted: nat)

  function Start<T>(): Pipeline<T> { Pipeline([], [], [], [], 0) }

  datatype Step<T> = Emit(item: T) | SwapOut | HandOut

  function Next<T>(capacity: nat, s: Pipeline<T>, step: Step<T>): Pipeline<T> {
    match step
    case Emit(v) =>
      if |s.held| == capacity && s.held != [] then
        s.(emitted := s.emitted + [v], held := s.held[1..] + [v], evicted := s.evicted + 1)
      else s.(emitted := s.emitted + [v], held := s.held + [v])
    case SwapOut =>
      // One snapshot at a time: a second waits for the first to hand out.
      if s.inFlight == [] then s.(inFlight := s.held, held := []) else s
    case HandOut => s.(delivered := s.delivered + s.inFlight, inFlight := [])
  }

  function Run<T>(capacity: nat, steps: seq<Step<T>>): Pipeline<T> {
    if steps == [] then Start()
    else Next(capacity, Run(capacity, steps[..|steps| - 1]), steps[|steps| - 1])
  }

  /** out is emitted at the positions at, in order. */
  ghost predicate Selects<T>(emitted: seq<T>, at: seq<nat>, out: seq<T>) {
    && |at| == |out|
    && (forall i :: 0 <= i < |at| ==> at[i] < |emitted| && out[i] == emitted[at[i]])
    && (forall i, j :: 0 <= i < j < |at| ==> at[i] < at[j])
  }

  function Pending<T>(s: Pipeline<T>): seq<T> { s.delivered + s.inFlight + s.held }

  /** Each execution emitted is delivered, in flight or held, once and in order, but for
      exactly the overwritten ones. */
  ghost predicate Accounted<T>(s: Pipeline<T>) {
    exists at: seq<nat> :: Selects(s.emitted, at, Pending(s)) && |at| + s.evicted == |s.emitted|
  }

  lemma EmitSelects<T>(emitted: seq<T>, at: seq<nat>, out: seq<T>, v: T)
    requires Selects(emitted, at, out)
    ensures Selects(emitted + [v], at + [|emitted|], out + [v])
  {
  }

  lemma OverwriteSelects<T>(emitted: seq<T>, at: seq<nat>, out: seq<T>, k: nat)
    requires Selects(emitted, at, out) && k < |at|
    ensures Selects(emitted, at[..k] + at[k + 1..], out[..k] + out[k + 1..])
  {
  }

  lemma PendingOverwritten<T>(done: seq<T>, held: seq<T>, v: T)
    requires held != []
    ensures var all := done + held; var k := |done|;
      done + (held[1..] + [v]) == all[..k] + all[k + 1..] + [v]
  {
    var all, k := done + held, |done|;
    assert all[..k] == done && all[k + 1..] == held[1..];
    assert done + (held[1..] + [v]) == done + held[1..] + [v];
  }

  lemma EmitAccounted<T>(capacity: nat, s: Pipeline<T>, v: T)
    requires Accounted(s)
    ensures Accounted(Next(capacity, s, Emit(v)))
  {
    var at: seq<nat> :| Selects(s.emitted, at, Pending(s)) && |at| + s.evicted == |s.emitted|;
    if |s.held| == capacity && s.held != [] {
      OverwriteAccounted(capacity, s, v, at);
    } else {
      AppendAccounted(capacity, s, v, at);
    }
  }

  lemma AppendAccounted<T>(capacity: nat, s: Pipeline<T>, v: T, at: seq<nat>)
    requires Selects(s.emitted, at, Pending(s)) && |at| + s.evicted == |s.emitted|
    requires !(|s.held| == capacity && s.held != [])
    ensures Accounted(Next(capacity, s, Emit(v)))
  {
    var t := Next(capacity, s, Emit(v));
    EmitSelects(s.emitted, at, Pending(s), v);
    assert Pending(t) == Pending(s) + [v];
    assert Selects(t.emitted, at + [|s.emitted|], Pending(t));
  }

  lemma OverwriteAccounted<T>(capacity: nat, s: Pipeline<T>, v: T, at: seq<nat>)
    requires Selects(s.emitted, at, Pending(s)) && |at| + s.evicted == |s.emitted|
    requires |s.held| == capacity && s.held != []
    ensures Accounted(Next(capacity, s, Emit(v)))
  {
    var t := Next(capacity, s, Emit(v));
    var out, k := Pending(s), |s.delivered + s.inFlight|;
    var kept := at[..k] + at[k + 1..];
    OverwriteSelects(s.emitted, at, out, k);
    EmitSelects(s.emitted, kept, out[..k] + out[k + 1..], v);
    PendingOverwritten(s.delivered + s.inFlight, s.held, v);
    assert Selects(t.emitted, kept + [|s.emitted|], Pending(t));
  }

  lemma SnapshotAccounted<T>(capacity: nat, s: Pipeline<T>, step: Step<T>)
    requires Accounted(s) && !step.Emit?
    ensures Accounted(Next(capacity, s, step))
  {
    var at: seq<nat> :| Selects(s.emitted, at, Pending(s)) && |at| + s.evicted == |s.emitted|;
    assert Pending(Next(capacity, s, step)) == Pending(s);
  }

  /** Over every interleaving of emits with the two halves of each snapshot. */
  lemma {:induction false} DeliveredExactlyOnce<T>(capacity: nat, steps: seq<Step<T>>)
    ensures Accounted(Run(capacity, steps))
  {
    if steps == [] {
      assert Selects<T>([], [], Pending(Start<T>()));
    } else {
      var before, step := steps[..|steps| - 1], steps[|steps| - 1];
      DeliveredExactlyOnce(capacity, before);
      if step.Emit? {
        EmitAccounted(capacity, Run(capacity, before), step.item);
      } else {
        SnapshotAccounted(capacity, Run(capacity, before), step);
      }
    }
  }

  /** With nothing overwritten, what went in is what came out or is still to come. */
  lemma NothingLost<T>(s: Pipeline<T>)
    requires Accounted(s) && s.evicted == 0
    ensures Pending(s) == s.emitted
  {
    var at: seq<nat> :| Selects(s.emitted, at, Pending(s)) && |at| == |s.emitted|;
    forall i | 0 <= i < |at| ensures at[i] == i {
      FullSelection(at, |s.emitted|, i);
    }
  }

  lemma {:induction false} FullSelection(at: seq<nat>, n: nat, i: nat)
    requires |at| == n && i < n
    requires forall k :: 0 <= k < n ==> at[k] < n
    requires forall k, l :: 0 <= k < l < n ==> at[k] < at[l]
    ensures at[i] == i
  {
    AtLeast(at, i);
    AtMost(at, n, i);
  }

  lemma {:induction false} AtLeast(at: seq<nat>, i: nat)
    requires i < |at|
    requires forall k, l :: 0 <= k < l < |at| ==> at[k] < at[l]
    ensures at[i] >= i
  {
    if i > 0 {
      AtLeast(at, i - 1);
    }
  }

  lemma {:induction false} AtMost(at: seq<nat>, n: nat, i: nat)
    requires i < |at| == n && forall k :: 0 <= k < n ==> at[k] < n
    requires forall k, l :: 0 <= k < l < n ==> at[k] < at[l]
    ensures at[i] <= i
    decreases n - i
  {
    if i + 1 < n {
      AtMost(at, n, i + 1);
    }
  }
}
