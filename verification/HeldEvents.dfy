/** The name table and the queue of unnamed events as the consumer keeps them
    (gpuprobe/kernelnames.go, gpuprobe/consumer.go), refining KernelNames. */
module HeldEvents {
  import opened Machine
  import opened GpuEvents
  import opened KernelNames

  class KernelNameTable {
    const capacity: nat
    var byID: map<uint64, Name>
    var order: seq<uint64>
    var head: nat

    ghost predicate Valid() reads this { head <= |order| && capacity >= 1 }

    ghost function Model(): Table
      requires Valid()
      reads this
    {
      Table(byID, order[head..])
    }

    constructor (capacity: int)
      ensures Valid() && Model() == Table(map[], [])
      ensures this.capacity == if capacity <= 0 then 4096 else capacity
    {
      this.capacity := if capacity <= 0 then DEFAULT_NAME_CAPACITY else capacity;
      byID, order, head := map[], [], 0;
    }

    /** A replay replaces in place; a new name goes last and may push out the first. */
    method Put(id: uint64, k: Name) returns (evicted: nat)
      requires Valid()
      modifies this
      ensures Valid() && Model() == Trimmed(Interned(old(Model()), id, k), capacity)
      ensures evicted == |Interned(old(Model()), id, k).order| - |Model().order|
    {
      ghost var grown := Interned(Model(), id, k);
      if id !in byID {
        order := order + [id];
      }
      byID := byID[id := k];
      assert Model() == grown;
      evicted := Evict();
      Compact();
    }

    method Evict() returns (evicted: nat)
      requires Valid()
      modifies this
      ensures Valid() && Model() == Trimmed(old(Model()), capacity)
      ensures evicted == |old(Model()).order| - |Model().order|
    {
      evicted := 0;
      while |byID| > capacity && head < |order|
        invariant Valid() && order == old(order)
        invariant evicted == |old(Model()).order| - |Model().order|
        invariant Trimmed(Model(), capacity) == Trimmed(old(Model()), capacity)
      {
        ghost var was := Model();
        byID := byID - {order[head]};
        head := head + 1;
        evicted := evicted + 1;
        assert Model() == Table(was.byID - {was.order[0]}, was.order[1..]);
      }
    }

    method Compact()
      requires Valid()
      modifies this`order, this`head
      ensures Valid() && Model() == old(Model())
    {
      if head == 0 || head * 2 < |order| {
        return;
      }
      order := order[head..];
      head := 0;
    }
  }

  /** How far a queue has been sifted for one kernel: up to i its events are out, the others
      close up behind head, and from i on nothing has moved. */
  ghost predicate Sifted(was: seq<Event>, buf: seq<Event>, head: nat, n: nat, i: nat, out: seq<Event>, id: uint64) {
    && head <= n <= i <= |buf| == head + |was|
    && out == OfKernel(was[..i - head], id) && buf[head..n] == Others(was[..i - head], id)
    && (forall j :: i <= j < |buf| ==> buf[j] == was[j - head])
  }

  lemma TakenNext(es: seq<Event>, k: nat, id: uint64)
    requires k < |es|
    ensures OfKernel(es[..k + 1], id) == OfKernel(es[..k], id) + if es[k].kernelID == id then [es[k]] else []
    ensures Others(es[..k + 1], id) == Others(es[..k], id) + if es[k].kernelID == id then [] else [es[k]]
  {
    assert es[..k + 1][..k] == es[..k];
  }

  lemma SiftOut(was: seq<Event>, buf: seq<Event>, head: nat, n: nat, i: nat, out: seq<Event>, id: uint64)
    requires Sifted(was, buf, head, n, i, out, id) && i < |buf| && buf[i].kernelID == id
    ensures Sifted(was, buf, head, n, i + 1, out + [buf[i]], id)
  {
    TakenNext(was, i - head, id);
    assert Others(was[..i - head], id) + [] == Others(was[..i - head], id);
  }

  lemma SiftKeep(was: seq<Event>, buf: seq<Event>, head: nat, n: nat, i: nat, out: seq<Event>, id: uint64)
    requires Sifted(was, buf, head, n, i, out, id) && i < |buf| && buf[i].kernelID != id
    ensures Sifted(was, buf[n := buf[i]], head, n + 1, i + 1, out, id)
  {
    TakenNext(was, i - head, id);
    assert out + [] == out;
    assert buf[n := buf[i]][head..n + 1] == buf[head..n] + [buf[i]];
  }

  lemma SiftedWhole(was: seq<Event>, buf: seq<Event>, head: nat, n: nat, out: seq<Event>, id: uint64)
    requires Sifted(was, buf, head, n, |buf|, out, id)
    ensures out == OfKernel(was, id) && buf[..n][head..] == Others(was, id)
  {
    assert was[..|buf| - head] == was;
    assert buf[..n][head..] == buf[head..n];
  }

  class PendingNames {
    const capacity: nat
    var buf: seq<Event>
    var head: nat

    ghost predicate Valid() reads this { head <= |buf| && capacity >= 1 }

    ghost function Waiting(): seq<Event>
      requires Valid()
      reads this
    {
      buf[head..]
    }

    constructor (capacity: int)
      ensures Valid() && Waiting() == []
      ensures this.capacity == if capacity <= 0 then 512 else capacity
    {
      this.capacity := if capacity <= 0 then DEFAULT_HELD_CAPACITY else capacity;
      buf, head := [], 0;
    }

    method Push(e: Event) returns (released: Option<Event>)
      requires Valid()
      modifies this
      ensures Valid()
      ensures var was := old(Waiting());
        if |was| >= capacity then released == Some(was[0]) && Waiting() == was[1..] + [e]
        else released == None && Waiting() == was + [e]
    {
      released := None;
      if |buf| - head >= capacity {
        released := Pop();
      }
      buf := buf + [e];
    }

    method Pop() returns (e: Option<Event>)
      requires Valid()
      modifies this
      ensures Valid()
      ensures var was := old(Waiting());
        if was == [] then e == None && Waiting() == [] else e == Some(was[0]) && Waiting() == was[1..]
    {
      if head >= |buf| {
        return None;
      }
      e := Some(buf[head]);
      head := head + 1;
      Compact();
    }

    method Compact()
      requires Valid()
      modifies this
      ensures Valid() && Waiting() == old(Waiting())
    {
      if head == 0 || head * 2 < |buf| {
        return;
      }
      buf := buf[head..];
      head := 0;
    }

    /** Takes every event of one kernel out, closing the gaps in place. */
    method TakeByKernel(id: uint64) returns (out: seq<Event>)
      requires Valid()
      modifies this
      ensures Valid() && out == OfKernel(old(Waiting()), id) && Waiting() == Others(old(Waiting()), id)
    {
      out := [];
      ghost var was := Waiting();
      var n: nat := head;
      var size := |buf|;
      for i := head to size
        invariant head == old(head) && |buf| == size && Sifted(was, buf, head, n, i, out, id)
      {
        if buf[i].kernelID == id {
          SiftOut(was, buf, head, n, i, out, id);
          out := out + [buf[i]];
        } else {
          SiftKeep(was, buf, head, n, i, out, id);
          buf := buf[n := buf[i]];
          n := n + 1;
        }
      }
      SiftedWhole(was, buf, head, n, out, id);
      buf := buf[..n];
    }

    method Drain() returns (out: seq<Event>)
      requires Valid()
      modifies this
      ensures Valid() && out == old(Waiting()) && Waiting() == []
    {
      out := buf[head..];
      buf, head := [], 0;
    }
  }

  function Unnamed(ds: seq<Delivery>): nat {
    if ds == [] then 0 else Unnamed(ds[..|ds| - 1]) + if ds[|ds| - 1].named then 0 else 1
  }

  /** The part of the consumer between the wire and the sink. */
  class Consumer {
    const names: KernelNameTable
    const unnamed: PendingNames
    var sawKernelName: bool
    var learned: nat
    var truncated: nat
    var evicted: nat
    var unresolved: nat
    // Everything handed to the sink, in order.
    var sunk: seq<Delivery>

    /** Every event sunk without a name, and no other, is counted as unresolved. */
    ghost predicate Counted()
      reads this`sunk, this`unresolved
    {
      unresolved == Unnamed(sunk)
    }

    ghost predicate Valid()
      reads this`sunk, this`unresolved, names, unnamed
    {
      names.Valid() && unnamed.Valid() && Counted()
    }

    ghost function Lim(): Limits { Limits(names.capacity, unnamed.capacity) }

    ghost function Model(): State
      requires Valid()
      reads this, names, unnamed
    {
      State(names.Model(), unnamed.Waiting(), sawKernelName, sunk)
    }

    constructor (nameCapacity: int, heldCapacity: int)
      ensures Valid() && Model() == START && Lim().names >= 1 && Lim().held >= 1
      ensures fresh(names) && fresh(unnamed)
    {
      names := new KernelNameTable(nameCapacity);
      unnamed := new PendingNames(heldCapacity);
      sawKernelName, learned, truncated, evicted, unresolved, sunk := false, 0, 0, 0, 0, [];
    }

    method Sink(d: Delivery)
      requires Counted()
      modifies this`sunk, this`unresolved
      ensures Counted() && sunk == old(sunk) + [d]
    {
      assert (sunk + [d])[..|sunk|] == sunk;
      if !d.named {
        unresolved := unresolved + 1;
      }
      sunk := sunk + [d];
    }

    method Emit(e: Event)
      requires Valid()
      modifies this`sunk, this`unresolved, unnamed
      ensures Valid() && Model() == Arrived(Lim(), old(Model()), e)
    {
      if e.kernelID != 0 && e.kernelID in names.byID {
        Sink(Delivery(e, names.byID[e.kernelID].Resolved(), true));
      } else if e.kernelID != 0 && sawKernelName {
        var released := unnamed.Push(e);
        if released.Some? {
          Sink(Release(released.value, ""));
        }
      } else {
        Sink(Delivery(e, "", false));
      }
    }

    method ReleaseAll(es: seq<Event>, name: string)
      requires Counted()
      modifies this`sunk, this`unresolved
      ensures Counted() && sunk == old(sunk) + Released(es, name)
    {
      for i := 0 to |es|
        invariant Counted()
        invariant sunk == old(sunk) + Released(es[..i], name)
      {
        assert es[..i + 1][..i] == es[..i];
        Sink(Release(es[i], name));
      }
      assert es[..|es|] == es;
    }

    method LearnName(id: uint64, k: Name)
      requires Valid()
      modifies this, names, unnamed
      ensures Valid() && Model() == Learned(Lim(), old(Model()), id, k)
      ensures learned == old(learned) + 1 && truncated == old(truncated) + if k.truncated then 1 else 0
      ensures evicted == old(evicted) + |Interned(old(names.Model()), id, k).order| - |names.Model().order|
    {
      learned := learned + 1;
      sawKernelName := true;
      if k.truncated {
        truncated := truncated + 1;
      }
      var gone := names.Put(id, k);
      evicted := evicted + gone;
      var waiting := unnamed.TakeByKernel(id);
      ReleaseAll(waiting, k.Resolved());
    }

    method FlushNames()
      requires Valid()
      modifies this, unnamed
      ensures Valid() && Model() == Flushed(old(Model()))
    {
      var waiting := unnamed.Drain();
      ReleaseAll(waiting, "");
    }
  }
}
