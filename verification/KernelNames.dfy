/** Events held until their kernel's name arrives (gpuprobe/kernelnames.go and the
    hold, release and learn functions of gpuprobe/consumer.go). */
module KernelNames {
  import opened Machine
  import opened GpuEvents

  const TRUNCATED_SUFFIX := "\U{2026}"
  const DEFAULT_NAME_CAPACITY: nat := 4096
  const DEFAULT_HELD_CAPACITY: nat := 512

  datatype Name = Name(text: string, truncated: bool)
  {
    function Resolved(): string { if truncated then text + TRUNCATED_SUFFIX else text }
  }

  datatype Body = OfLaunch(launch: Launch) | OfExec(exec: Exec)

  /** One normalised event, by the kernel it refers to; 0 is "no kernel". */
  datatype Event = Event(kernelID: uint64, body: Body)

  /** An event as the sink receives it. */
  datatype Delivery = Delivery(event: Event, name: string, named: bool)

  // ----- Queues.

  function OfKernel(es: seq<Event>, id: uint64): seq<Event> {
    if es == [] then []
    else OfKernel(es[..|es| - 1], id) + if es[|es| - 1].kernelID == id then [es[|es| - 1]] else []
  }

  function Others(es: seq<Event>, id: uint64): seq<Event> {
    if es == [] then []
    else Others(es[..|es| - 1], id) + if es[|es| - 1].kernelID != id then [es[|es| - 1]] else []
  }

  function Events(ds: seq<Delivery>): (r: seq<Event>)
    ensures |r| == |ds|
  {
    if ds == [] then [] else Events(ds[..|ds| - 1]) + [ds[|ds| - 1].event]
  }

  lemma {:induction false} OfKernelAppend(a: seq<Event>, b: seq<Event>, id: uint64)
    ensures OfKernel(a + b, id) == OfKernel(a, id) + OfKernel(b, id)
  {
    if b == [] {
      assert a + b == a;
    } else {
      assert (a + b)[..|a + b| - 1] == a + b[..|b| - 1];
      OfKernelAppend(a, b[..|b| - 1], id);
    }
  }

  lemma {:induction false} EventsAppend(a: seq<Delivery>, b: seq<Delivery>)
    ensures Events(a + b) == Events(a) + Events(b)
  {
    if b == [] {
      assert a + b == a;
    } else {
      assert (a + b)[..|a + b| - 1] == a + b[..|b| - 1];
      EventsAppend(a, b[..|b| - 1]);
    }
  }

  lemma {:induction false} OfKernelOfOthers(es: seq<Event>, id: uint64, k: uint64)
    ensures OfKernel(Others(es, id), k) == if k == id then [] else OfKernel(es, k)
    ensures OfKernel(OfKernel(es, id), k) == if k == id then OfKernel(es, id) else []
  {
    if es != [] {
      var n := |es| - 1;
      OfKernelOfOthers(es[..n], id, k);
      OfKernelAppend(Others(es[..n], id), if es[n].kernelID != id then [es[n]] else [], k);
      OfKernelAppend(OfKernel(es[..n], id), if es[n].kernelID == id then [es[n]] else [], k);
      OfOne(es[n], k);
    }
  }

  lemma OfOne(e: Event, k: uint64)
    ensures OfKernel([e], k) == if e.kernelID == k then [e] else []
  {
    assert [e][..0] == [];
  }

  lemma {:induction false} OthersOnly(es: seq<Event>, id: uint64)
    ensures forall e :: e in Others(es, id) <==> e in es && e.kernelID != id
    ensures |Others(es, id)| <= |es|
  {
    if es != [] {
      OthersOnly(es[..|es| - 1], id);
      assert es == es[..|es| - 1] + [es[|es| - 1]];
    }
  }

  // ----- The name table.

  datatype Table = Table(byID: map<uint64, Name>, order: seq<uint64>)

  ghost predicate Unique(ids: seq<uint64>) {
    ids == [] || (ids[0] !in ids[1..] && Unique(ids[1..]))
  }

  /** One order position for each name held, and no more names than fit. */
  ghost predicate TableValid(t: Table, capacity: nat) {
    && |t.order| == |t.byID| <= capacity
    && (forall id :: id in t.order <==> id in t.byID)
    && Unique(t.order)
  }

  function Interned(t: Table, id: uint64, k: Name): Table {
    Table(t.byID[id := k], if id in t.byID then t.order else t.order + [id])
  }

  function Trimmed(t: Table, capacity: nat): Table
    decreases |t.order|
  {
    if |t.byID| > capacity && t.order != [] then Trimmed(Table(t.byID - {t.order[0]}, t.order[1..]), capacity) else t
  }

  // ----- Holding and releasing, over values.

  datatype Limits = Limits(names: nat, held: nat)

  datatype State = State(table: Table, held: seq<Event>, sawName: bool, sunk: seq<Delivery>)

  const START := State(Table(map[], []), [], false, [])

  function Release(e: Event, name: string): Delivery { Delivery(e, name, name != "") }

  function Released(es: seq<Event>, name: string): (r: seq<Delivery>)
    ensures |r| == |es|
  {
    if es == [] then [] else Released(es[..|es| - 1], name) + [Release(es[|es| - 1], name)]
  }

  lemma {:induction false} EventsReleased(es: seq<Event>, name: string)
    ensures Events(Released(es, name)) == es
  {
    if es != [] {
      EventsReleased(es[..|es| - 1], name);
      assert es == es[..|es| - 1] + [es[|es| - 1]];
    }
  }

  /** The oldest held event makes way, unnamed. */
  function Held(lim: Limits, s: State, e: Event): State {
    if |s.held| >= lim.held && s.held != [] then
      s.(held := s.held[1..] + [e], sunk := s.sunk + [Release(s.held[0], "")])
    else s.(held := s.held + [e])
  }

  function Arrived(lim: Limits, s: State, e: Event): State {
    if e.kernelID != 0 && e.kernelID in s.table.byID then
      s.(sunk := s.sunk + [Delivery(e, s.table.byID[e.kernelID].Resolved(), true)])
    else if e.kernelID != 0 && s.sawName then Held(lim, s, e)
    else s.(sunk := s.sunk + [Delivery(e, "", false)])
  }

  function Learned(lim: Limits, s: State, id: uint64, k: Name): State {
    State(Trimmed(Interned(s.table, id, k), lim.names), Others(s.held, id), true,
          s.sunk + Released(OfKernel(s.held, id), k.Resolved()))
  }

  function Flushed(s: State): State {
    s.(held := [], sunk := s.sunk + Released(s.held, ""))
  }

  // ----- Whole runs.

  datatype Step = Arrive(event: Event) | Learn(id: uint64, name: Name) | Flush

  function Next(lim: Limits, s: State, step: Step): State {
    match step
    case Arrive(e) => Arrived(lim, s, e)
    case Learn(id, k) => Learned(lim, s, id, k)
    case Flush => Flushed(s)
  }

  function Run(lim: Limits, steps: seq<Step>): State {
    if steps == [] then START else Next(lim, Run(lim, steps[..|steps| - 1]), steps[|steps| - 1])
  }

  function Emitted(steps: seq<Step>): seq<Event> {
    if steps == [] then []
    else Emitted(steps[..|steps| - 1]) + EmittedBy(steps[|steps| - 1])
  }

  /** The kernel of a held event has no name, and nothing waits before a name was seen. */
  ghost predicate Waiting(lim: Limits, s: State) {
    && TableValid(s.table, lim.names)
    && |s.held| <= Max(lim.held, 1)
    && (s.held != [] ==> s.sawName)
    && (forall e :: e in s.held ==> e.kernelID != 0 && e.kernelID !in s.table.byID)
  }

  /** What was emitted for a kernel is what the sink got for it and then what is held. */
  ghost predicate InOrder(emitted: seq<Event>, s: State, k: uint64) {
    OfKernel(emitted, k) == OfKernel(Events(s.sunk), k) + OfKernel(s.held, k)
  }

  lemma {:induction false} TrimmedSubset(t: Table, capacity: nat)
    ensures Trimmed(t, capacity).byID.Keys <= t.byID.Keys
    decreases |t.order|
  {
    if |t.byID| > capacity && t.order != [] {
      TrimmedSubset(Table(t.byID - {t.order[0]}, t.order[1..]), capacity);
    }
  }

  lemma {:induction false} UniqueAppend(ids: seq<uint64>, id: uint64)
    requires Unique(ids) && id !in ids
    ensures Unique(ids + [id])
  {
    if ids == [] {
      assert (ids + [id])[1..] == [];
    } else {
      assert (ids + [id])[1..] == ids[1..] + [id];
      UniqueAppend(ids[1..], id);
    }
  }

  lemma GrownValid(t: Table, capacity: nat, id: uint64, k: Name)
    requires TableValid(t, capacity)
    ensures TableValid(Interned(t, id, k), capacity + 1)
  {
    SizeWith(t.byID, id, k);
    if id !in t.byID {
      UniqueAppend(t.order, id);
    }
  }

  lemma PopValid(t: Table, capacity: nat)
    requires TableValid(t, capacity + 1) && t.order != []
    ensures TableValid(Table(t.byID - {t.order[0]}, t.order[1..]), capacity)
  {
    var oldest, rest := t.order[0], t.order[1..];
    SizeWithout(t.byID, oldest);
    assert t.order == [oldest] + rest;
  }

  lemma TrimOne(t: Table, capacity: nat)
    requires |t.byID| == capacity + 1 && t.order != [] && t.order[0] in t.byID
    ensures Trimmed(t, capacity) == Table(t.byID - {t.order[0]}, t.order[1..])
  {
    SizeWithout(t.byID, t.order[0]);
  }

  /** Interning keeps the table exact: one order position for each name held, at most one
      older name gone, never the new one. */
  lemma InternValid(t: Table, capacity: nat, id: uint64, k: Name)
    requires TableValid(t, capacity) && capacity >= 1
    ensures var r := Trimmed(Interned(t, id, k), capacity);
      TableValid(r, capacity) && id in r.byID && r.byID[id] == k
  {
    var grown := Interned(t, id, k);
    GrownValid(t, capacity, id, k);
    SizeWith(t.byID, id, k);
    if |grown.byID| > capacity {
      PopValid(grown, capacity);
      TrimOne(grown, capacity);
      assert grown.order[0] == t.order[0];
    }
  }

  // ----- What every step keeps.

  lemma ArriveWaits(lim: Limits, s: State, e: Event)
    requires Waiting(lim, s)
    ensures Waiting(lim, Arrived(lim, s, e))
  {
  }

  lemma LearnWaits(lim: Limits, s: State, id: uint64, k: Name)
    requires Waiting(lim, s) && lim.names >= 1
    ensures Waiting(lim, Learned(lim, s, id, k))
  {
    InternValid(s.table, lim.names, id, k);
    TrimmedSubset(Interned(s.table, id, k), lim.names);
    OthersOnly(s.held, id);
  }

  lemma {:induction false} NoneHeld(held: seq<Event>, id: uint64)
    requires forall e :: e in held ==> e.kernelID != id
    ensures OfKernel(held, id) == []
  {
    if held != [] {
      NoneHeld(held[..|held| - 1], id);
    }
  }

  /** An event of no held kernel may overtake what is held. */
  lemma Overtakes(sunk: seq<Event>, held: seq<Event>, e: Event, k: uint64)
    requires forall h :: h in held ==> h.kernelID != e.kernelID
    ensures OfKernel(sunk + [e], k) + OfKernel(held, k) == OfKernel(sunk, k) + OfKernel(held, k) + OfKernel([e], k)
  {
    OfKernelAppend(sunk, [e], k);
    OfOne(e, k);
    if k == e.kernelID {
      NoneHeld(held, k);
    }
  }

  /** The oldest held event moves on while a new one joins the back. */
  lemma Shifts(sunk: seq<Event>, held: seq<Event>, e: Event, k: uint64)
    requires held != []
    ensures OfKernel(sunk + [held[0]], k) + OfKernel(held[1..] + [e], k)
      == OfKernel(sunk, k) + OfKernel(held, k) + OfKernel([e], k)
  {
    ShiftsAround(sunk, held[0], held[1..], e, k);
    assert held == [held[0]] + held[1..];
  }

  lemma ShiftsAround(sunk: seq<Event>, first: Event, rest: seq<Event>, e: Event, k: uint64)
    ensures OfKernel(sunk + [first], k) + OfKernel(rest + [e], k)
      == OfKernel(sunk, k) + OfKernel([first] + rest, k) + OfKernel([e], k)
  {
    OfKernelAppend(sunk, [first], k);
    OfKernelAppend(rest, [e], k);
    OfKernelAppend([first], rest, k);
    Reassociate(OfKernel(sunk, k), OfKernel([first], k), OfKernel(rest, k), OfKernel([e], k));
  }

  lemma Reassociate(a: seq<Event>, b: seq<Event>, c: seq<Event>, d: seq<Event>)
    ensures (a + b) + (c + d) == a + (b + c) + d
  {
  }

  lemma EventsOne(sunk: seq<Delivery>, d: Delivery)
    ensures Events(sunk + [d]) == Events(sunk) + [d.event]
  {
    assert (sunk + [d])[..|sunk|] == sunk;
  }

  lemma HeldInOrder(lim: Limits, s: State, e: Event, k: uint64)
    ensures var t := Held(lim, s, e);
      OfKernel(Events(t.sunk), k) + OfKernel(t.held, k)
      == OfKernel(Events(s.sunk), k) + OfKernel(s.held, k) + OfKernel([e], k)
  {
    if |s.held| >= lim.held && s.held != [] {
      EventsOne(s.sunk, Release(s.held[0], ""));
      Shifts(Events(s.sunk), s.held, e, k);
    } else {
      OfKernelAppend(s.held, [e], k);
    }
  }

  lemma ArriveInOrder(lim: Limits, s: State, emitted: seq<Event>, e: Event, k: uint64)
    requires Waiting(lim, s) && InOrder(emitted, s, k)
    ensures InOrder(emitted + [e], Arrived(lim, s, e), k)
  {
    OfKernelAppend(emitted, [e], k);
    var t := Arrived(lim, s, e);
    if e.kernelID != 0 && s.sawName && e.kernelID !in s.table.byID {
      HeldInOrder(lim, s, e, k);
    } else {
      EventsOne(s.sunk, t.sunk[|s.sunk|]);
      Overtakes(Events(s.sunk), s.held, e, k);
    }
  }

  lemma ReleaseInOrder(sunk: seq<Delivery>, es: seq<Event>, name: string, k: uint64)
    ensures OfKernel(Events(sunk + Released(es, name)), k) == OfKernel(Events(sunk), k) + OfKernel(es, k)
  {
    EventsAppend(sunk, Released(es, name));
    EventsReleased(es, name);
    OfKernelAppend(Events(sunk), es, k);
  }

  /** Taking one kernel's events out of the queue, all of them, reorders no kernel. */
  lemma TakenInOrder(held: seq<Event>, id: uint64, k: uint64)
    ensures OfKernel(OfKernel(held, id), k) + OfKernel(Others(held, id), k) == OfKernel(held, k)
  {
    OfKernelOfOthers(held, id, k);
  }

  lemma LearnInOrder(lim: Limits, s: State, emitted: seq<Event>, id: uint64, name: Name, k: uint64)
    requires InOrder(emitted, s, k)
    ensures InOrder(emitted, Learned(lim, s, id, name), k)
  {
    var out := OfKernel(s.held, id);
    var a, b, c := OfKernel(Events(s.sunk), k), OfKernel(out, k), OfKernel(Others(s.held, id), k);
    assert OfKernel(Events(s.sunk + Released(out, name.Resolved())), k) == a + b by {
      ReleaseInOrder(s.sunk, out, name.Resolved(), k);
    }
    assert b + c == OfKernel(s.held, k) by { TakenInOrder(s.held, id, k); }
    assert (a + b) + c == a + (b + c);
  }

  lemma FlushInOrder(s: State, emitted: seq<Event>, k: uint64)
    requires InOrder(emitted, s, k)
    ensures InOrder(emitted, Flushed(s), k)
  {
    ReleaseInOrder(s.sunk, s.held, "", k);
  }

  function EmittedBy(step: Step): seq<Event> { if step.Arrive? then [step.event] else [] }

  lemma StepKeeps(lim: Limits, s: State, emitted: seq<Event>, step: Step, k: uint64)
    requires lim.names >= 1 && Waiting(lim, s) && InOrder(emitted, s, k)
    ensures Waiting(lim, Next(lim, s, step))
    ensures InOrder(emitted + EmittedBy(step), Next(lim, s, step), k)
  {
    match step
    case Arrive(e) =>
      ArriveWaits(lim, s, e);
      ArriveInOrder(lim, s, emitted, e, k);
    case Learn(id, name) =>
      assert emitted + EmittedBy(step) == emitted;
      LearnWaits(lim, s, id, name);
      LearnInOrder(lim, s, emitted, id, name, k);
    case Flush =>
      assert emitted + EmittedBy(step) == emitted;
      FlushInOrder(s, emitted, k);
  }

  /** Over every run of events, names, name evictions, overflows and flushes: a held
      event's kernel is never in the table, and each kernel's events reach the sink once
      each and in the order they were emitted. */
  lemma {:induction false} HeldOnceInOrder(lim: Limits, steps: seq<Step>, k: uint64)
    requires lim.names >= 1
    ensures Waiting(lim, Run(lim, steps))
    ensures InOrder(Emitted(steps), Run(lim, steps), k)
  {
    if steps != [] {
      var before, step := steps[..|steps| - 1], steps[|steps| - 1];
      HeldOnceInOrder(lim, before, k);
      StepKeeps(lim, Run(lim, before), Emitted(before), step, k);
    }
  }

  /** After a flush nothing is held, and the sink has had every event of every kernel. */
  lemma FlushEmpties(lim: Limits, steps: seq<Step>, k: uint64)
    requires lim.names >= 1
    ensures var s := Run(lim, steps + [Flush]);
      s.held == [] && OfKernel(Events(s.sunk), k) == OfKernel(Emitted(steps), k)
  {
    var all := steps + [Flush];
    assert all[..|steps|] == steps;
    HeldOnceInOrder(lim, all, k);
    assert Emitted(all) == Emitted(steps);
    assert OfKernel([], k) == [];
  }

  // ----- Names are never a stranger's.

  ghost predicate Known(steps: seq<Step>, id: uint64, name: string) {
    exists i :: 0 <= i < |steps| && steps[i].Learn? && steps[i].id == id && steps[i].name.Resolved() == name
  }

  ghost predicate Truthful(steps: seq<Step>, s: State) {
    && (forall id :: id in s.table.byID ==> Known(steps, id, s.table.byID[id].Resolved()))
    && (forall d :: d in s.sunk ==> d.name == "" || Known(steps, d.event.kernelID, d.name))
  }

  lemma KnownLater(steps: seq<Step>, step: Step, id: uint64, name: string)
    requires Known(steps, id, name)
    ensures Known(steps + [step], id, name)
  {
    var i :| 0 <= i < |steps| && steps[i].Learn? && steps[i].id == id && steps[i].name.Resolved() == name;
    assert (steps + [step])[i] == steps[i];
  }

  lemma {:induction false} TrimmedValues(t: Table, capacity: nat, id: uint64)
    requires id in Trimmed(t, capacity).byID
    ensures id in t.byID && Trimmed(t, capacity).byID[id] == t.byID[id]
    decreases |t.order|
  {
    if |t.byID| > capacity && t.order != [] {
      TrimmedValues(Table(t.byID - {t.order[0]}, t.order[1..]), capacity, id);
    }
  }

  lemma {:induction false} ReleasedAs(es: seq<Event>, id: uint64, name: string, d: Delivery)
    requires (forall e :: e in es ==> e.kernelID == id) && d in Released(es, name)
    ensures d.name == name && d.event.kernelID == id
  {
    if d in Released(es[..|es| - 1], name) {
      ReleasedAs(es[..|es| - 1], id, name, d);
    }
  }

  lemma {:induction false} OfKernelOnly(es: seq<Event>, id: uint64)
    ensures forall e :: e in OfKernel(es, id) ==> e.kernelID == id
  {
    if es != [] {
      OfKernelOnly(es[..|es| - 1], id);
    }
  }

  lemma {:induction false} ReleasedUnnamed(es: seq<Event>, d: Delivery)
    requires d in Released(es, "")
    ensures d.name == ""
  {
    if d in Released(es[..|es| - 1], "") {
      ReleasedUnnamed(es[..|es| - 1], d);
    }
  }

  lemma StepTruthful(lim: Limits, steps: seq<Step>, s: State, step: Step)
    requires Truthful(steps, s)
    ensures Truthful(steps + [step], Next(lim, s, step))
  {
    var t, all := Next(lim, s, step), steps + [step];
    forall id | id in t.table.byID ensures Known(all, id, t.table.byID[id].Resolved()) {
      TableTruthful(lim, steps, s, step, id);
    }
    forall d | d in t.sunk ensures d.name == "" || Known(all, d.event.kernelID, d.name) {
      SunkTruthful(lim, steps, s, step, d);
    }
  }

  lemma TableTruthful(lim: Limits, steps: seq<Step>, s: State, step: Step, id: uint64)
    requires Truthful(steps, s) && id in Next(lim, s, step).table.byID
    ensures Known(steps + [step], id, Next(lim, s, step).table.byID[id].Resolved())
  {
    var all := steps + [step];
    if step.Learn? {
      TrimmedValues(Interned(s.table, step.id, step.name), lim.names, id);
      if id == step.id {
        assert all[|steps|] == step;
      } else {
        KnownLater(steps, step, id, s.table.byID[id].Resolved());
      }
    } else {
      KnownLater(steps, step, id, s.table.byID[id].Resolved());
    }
  }

  lemma SunkTruthful(lim: Limits, steps: seq<Step>, s: State, step: Step, d: Delivery)
    requires Truthful(steps, s) && d in Next(lim, s, step).sunk
    ensures d.name == "" || Known(steps + [step], d.event.kernelID, d.name)
  {
    if d in s.sunk {
      if d.name != "" {
        KnownLater(steps, step, d.event.kernelID, d.name);
      }
    } else {
      match step
      case Arrive(e) =>
        if d.name != "" {
          KnownLater(steps, step, e.kernelID, d.name);
        }
      case Learn(id, name) =>
        OfKernelOnly(s.held, id);
        ReleasedAs(OfKernel(s.held, id), id, name.Resolved(), d);
        assert (steps + [step])[|steps|] == step;
      case Flush => ReleasedUnnamed(s.held, d);
    }
  }

  /** Every name an event was delivered under was learned for that event's own kernel. */
  lemma {:induction false} NamesTruthful(lim: Limits, steps: seq<Step>)
    ensures Truthful(steps, Run(lim, steps))
  {
    if steps != [] {
      var before, step := steps[..|steps| - 1], steps[|steps| - 1];
      NamesTruthful(lim, before);
      StepTruthful(lim, before, Run(lim, before), step);
      assert steps == before + [step];
    }
  }
}
