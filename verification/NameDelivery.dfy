/** Whether an event reaches the sink under its kernel's name, in terms of what happened
    alone: events, names and flushes, in order (gpuprobe/consumer.go). */
module NameDelivery {
  import opened Machine
  import opened KernelNames

  // ----- What happened.

  /** A name as it is written: cut short, it says so. */
  function Text(k: Name): string { if k.truncated then k.text + ['\U{2026}'] else k.text }

  ghost predicate Seen(steps: seq<Step>) { exists i :: 0 <= i < |steps| && steps[i].Learn? }

  /** The kernels names were learned for. */
  function Learnt(steps: seq<Step>): set<uint64> {
    if steps == [] then {}
    else Learnt(steps[..|steps| - 1]) + if steps[|steps| - 1].Learn? then {steps[|steps| - 1].id} else {}
  }

  /** The name learned last for a kernel. */
  function Latest(steps: seq<Step>, id: uint64): Option<Name> {
    if steps == [] then None
    else
      var last := steps[|steps| - 1];
      if last.Learn? && last.id == id then Some(last.name) else Latest(steps[..|steps| - 1], id)
  }

  /** An event that may have to wait: a name has been seen, and either not its kernel's or
      too many for all of them to be kept. */
  ghost predicate MayWait(lim: Limits, before: seq<Step>, step: Step) {
    && step.Arrive? && step.event.kernelID != 0 && Seen(before)
    && !(step.event.kernelID in Learnt(before) && |Learnt(before)| <= lim.names)
  }

  /** How many such events came after step n. */
  ghost function Further(lim: Limits, steps: seq<Step>, n: nat): nat {
    if |steps| <= n + 1 then 0
    else
      var before := steps[..|steps| - 1];
      Further(lim, before, n) + if MayWait(lim, before, steps[|steps| - 1]) then 1 else 0
  }

  /** Between two steps no name came for a kernel and nothing was flushed. */
  ghost predicate Quiet(steps: seq<Step>, id: uint64, n: nat, t: nat) {
    forall i :: n < i < t && i < |steps| ==> !(steps[i].Learn? && steps[i].id == id) && !steps[i].Flush?
  }

  // ----- The table, on the steps alone.

  lemma SeenNext(steps: seq<Step>)
    requires steps != []
    ensures Seen(steps) <==> Seen(steps[..|steps| - 1]) || steps[|steps| - 1].Learn?
  {
    var n := |steps| - 1;
    assert forall i :: 0 <= i < n ==> steps[..n][i] == steps[i];
  }

  lemma LearntGrows(steps: seq<Step>)
    requires steps != []
    ensures |Learnt(steps[..|steps| - 1])| <= |Learnt(steps)|
  {
    var before := Learnt(steps[..|steps| - 1]);
    assert Learnt(steps) == before + (Learnt(steps) - before);
  }

  lemma {:induction false} LatestLearnt(steps: seq<Step>, id: uint64)
    ensures Latest(steps, id).Some? <==> id in Learnt(steps)
  {
    if steps != [] {
      LatestLearnt(steps[..|steps| - 1], id);
    }
  }

  /** A name in the table is the latest of its kernel; and all are there while they fit. */
  ghost predicate Current(lim: Limits, steps: seq<Step>, s: State) {
    && (s.sawName <==> Seen(steps))
    && (forall id :: id in s.table.byID ==> Latest(steps, id) == Some(s.table.byID[id]))
    && (|Learnt(steps)| <= lim.names ==> s.table.byID.Keys == Learnt(steps))
  }

  lemma LearnCurrent(lim: Limits, steps: seq<Step>, s: State, id: uint64, k: Name)
    requires lim.names >= 1 && TableValid(s.table, lim.names) && Current(lim, steps, s)
    ensures Current(lim, steps + [Learn(id, k)], Learned(lim, s, id, k))
  {
    var all, grown := steps + [Learn(id, k)], Interned(s.table, id, k);
    assert all[..|steps|] == steps;
    SeenNext(all);
    LearntGrows(all);
    InternValid(s.table, lim.names, id, k);
    forall i | i in Trimmed(grown, lim.names).byID
      ensures Latest(all, i) == Some(Trimmed(grown, lim.names).byID[i])
    {
      TrimmedValues(grown, lim.names, i);
    }
    if |Learnt(all)| <= lim.names {
      assert grown.byID.Keys == Learnt(all);
      assert |grown.byID| == |grown.byID.Keys|;
    }
  }

  lemma StepCurrent(lim: Limits, before: seq<Step>, s: State, step: Step, steps: seq<Step>)
    requires lim.names >= 1 && TableValid(s.table, lim.names) && Current(lim, before, s) && steps == before + [step]
    ensures Current(lim, steps, Next(lim, s, step))
  {
    if step.Learn? {
      LearnCurrent(lim, before, s, step.id, step.name);
    } else {
      OtherCurrent(lim, before, s, step);
    }
  }

  lemma RunWaits(lim: Limits, steps: seq<Step>)
    requires lim.names >= 1
    ensures Waiting(lim, Run(lim, steps))
  {
    HeldOnceInOrder(lim, steps, 0);
  }

  lemma {:induction false} RunCurrent(lim: Limits, steps: seq<Step>)
    requires lim.names >= 1
    ensures Current(lim, steps, Run(lim, steps))
  {
    if steps == [] {
      assert !Seen([]);
    } else {
      var before, step := steps[..|steps| - 1], steps[|steps| - 1];
      RunCurrent(lim, before);
      var s := Run(lim, before);
      assert TableValid(s.table, lim.names) by { RunWaits(lim, before); }
      assert Run(lim, steps) == Next(lim, s, step);
      StepCurrent(lim, before, s, step, steps);
    }
  }

  lemma OtherCurrent(lim: Limits, steps: seq<Step>, s: State, step: Step)
    requires Current(lim, steps, s) && !step.Learn?
    ensures Current(lim, steps + [step], Next(lim, s, step))
  {
    var all, t := steps + [step], Next(lim, s, step);
    assert all[..|steps|] == steps && all[|steps|] == step;
    SeenNext(all);
    assert t.table == s.table && t.sawName == s.sawName;
  }

  /** An event whose kernel's name was learned before it, while all names fit, goes to the
      sink at once, under the latest one. */
  lemma NamedAtOnce(lim: Limits, steps: seq<Step>, e: Event)
    requires lim.names >= 1 && e.kernelID != 0 && e.kernelID in Learnt(steps) && |Learnt(steps)| <= lim.names
    ensures Latest(steps, e.kernelID).Some?
    ensures var s, t := Run(lim, steps), Run(lim, steps + [Arrive(e)]);
      t.held == s.held && t.sunk == s.sunk + [Delivery(e, Text(Latest(steps, e.kernelID).value), true)]
  {
    RunCurrent(lim, steps);
    LatestLearnt(steps, e.kernelID);
    assert (steps + [Arrive(e)])[..|steps|] == steps;
  }

  // ----- Which delivery is whose.

  /** The deliveries of one kernel's events, in order: since a kernel's events are delivered
      once each and in order, the p-th is that of its p-th event. */
  function Of(ds: seq<Delivery>, id: uint64): seq<Delivery> {
    if ds == [] then []
    else Of(ds[..|ds| - 1], id) + if ds[|ds| - 1].event.kernelID == id then [ds[|ds| - 1]] else []
  }

  lemma {:induction false} OfAppend(a: seq<Delivery>, b: seq<Delivery>, id: uint64)
    ensures Of(a + b, id) == Of(a, id) + Of(b, id)
  {
    if b == [] {
      assert a + b == a;
    } else {
      assert (a + b)[..|a + b| - 1] == a + b[..|b| - 1];
      OfAppend(a, b[..|b| - 1], id);
    }
  }

  lemma OfNone(d: Delivery, id: uint64)
    ensures Of([d], id) == if d.event.kernelID == id then [d] else []
  {
    assert [d][..0] == [];
  }

  lemma {:induction false} OfEvents(ds: seq<Delivery>, id: uint64)
    ensures |Of(ds, id)| == |OfKernel(Events(ds), id)|
  {
    if ds != [] {
      OfEvents(ds[..|ds| - 1], id);
      assert Events(ds)[..|ds| - 1] == Events(ds[..|ds| - 1]);
    }
  }

  lemma {:induction false} OfReleased(es: seq<Event>, name: string, id: uint64)
    ensures Of(Released(es, name), id) == Released(OfKernel(es, id), name)
  {
    if es != [] {
      var n := |es| - 1;
      OfReleased(es[..n], name, id);
      OfAppend(Released(es[..n], name), [Release(es[n], name)], id);
      OfNone(Release(es[n], name), id);
      ReleasedNext(OfKernel(es[..n], id), es[n], name);
      assert OfKernel(es, id)
        == if es[n].kernelID == id then OfKernel(es[..n], id) + [es[n]] else OfKernel(es[..n], id);
      assert Released(es, name) == Released(es[..n], name) + [Release(es[n], name)];
    }
  }

  lemma ReleasedNext(es: seq<Event>, e: Event, name: string)
    ensures Released(es + [e], name) == Released(es, name) + [Release(e, name)]
  {
    assert (es + [e])[..|es|] == es;
  }

  lemma {:induction false} ReleasedAt(es: seq<Event>, name: string, i: nat)
    requires i < |es|
    ensures Released(es, name)[i] == Delivery(es[i], name, name != "")
  {
    if i < |es| - 1 {
      ReleasedAt(es[..|es| - 1], name, i);
    }
  }

  lemma OfKernelAt(es: seq<Event>, i: nat, id: uint64)
    requires i < |es| && es[i].kernelID == id
    ensures |OfKernel(es[..i], id)| < |OfKernel(es, id)| && OfKernel(es, id)[|OfKernel(es[..i], id)|] == es[i]
  {
    assert es == es[..i] + [es[i]] + es[i + 1..];
    OfKernelAppend(es[..i] + [es[i]], es[i + 1..], id);
    OfKernelAppend(es[..i], [es[i]], id);
    OfOne(es[i], id);
  }

  /** The p-th event of its kernel is in the queue, with at most behind events after it. */
  ghost predicate HeldAt(s: State, e: Event, p: nat, behind: nat, i: nat) {
    && i < |s.held| && s.held[i] == e && |s.held| - 1 - i <= behind
    && |Of(s.sunk, e.kernelID)| + |OfKernel(s.held[..i], e.kernelID)| == p
  }

  ghost predicate Held(s: State, e: Event, p: nat, behind: nat) { exists i: nat :: HeldAt(s, e, p, behind, i) }

  /** The p-th event of its kernel went to the sink so. */
  ghost predicate Sunk(s: State, e: Event, p: nat, name: string, named: bool) {
    p < |Of(s.sunk, e.kernelID)| && Of(s.sunk, e.kernelID)[p] == Delivery(e, name, named)
  }

  lemma SunkStays(s: State, t: State, more: seq<Delivery>, e: Event, p: nat, name: string, named: bool)
    requires Sunk(s, e, p, name, named) && t.sunk == s.sunk + more
    ensures Sunk(t, e, p, name, named)
  {
    OfAppend(s.sunk, more, e.kernelID);
  }

  /** Everything held of its kernel released under one name, the event among it. */
  lemma ReleasedTogether(s: State, t: State, es: seq<Event>, name: string, e: Event, p: nat, i: nat)
    requires i < |s.held| && s.held[i] == e
    requires |Of(s.sunk, e.kernelID)| + |OfKernel(s.held[..i], e.kernelID)| == p
    requires t.sunk == s.sunk + Released(es, name) && OfKernel(es, e.kernelID) == OfKernel(s.held, e.kernelID)
    ensures Sunk(t, e, p, name, name != "")
  {
    var id := e.kernelID;
    OfAppend(s.sunk, Released(es, name), id);
    OfReleased(es, name, id);
    OfKernelAt(s.held, i, id);
    ReleasedAt(OfKernel(s.held, id), name, |OfKernel(s.held[..i], id)|);
  }

  // ----- One step, for an event in the queue.

  lemma HeldOthers(held: seq<Event>, i: nat, id: uint64)
    requires i < |held| && held[i].kernelID != id
    ensures var r := Others(held, id);
      var j := |Others(held[..i], id)|;
      && j < |r| && r[j] == held[i] && |r| - 1 - j <= |held| - 1 - i
      && r[..j] == Others(held[..i], id)
  {
    assert held == held[..i] + [held[i]] + held[i + 1..];
    OthersAppend(held[..i] + [held[i]], held[i + 1..], id);
    OthersAppend(held[..i], [held[i]], id);
    assert [held[i]][..0] == [];
    OthersOnly(held[i + 1..], id);
  }

  lemma {:induction false} OthersAppend(a: seq<Event>, b: seq<Event>, id: uint64)
    ensures Others(a + b, id) == Others(a, id) + Others(b, id)
  {
    if b == [] {
      assert a + b == a;
    } else {
      assert (a + b)[..|a + b| - 1] == a + b[..|b| - 1];
      OthersAppend(a, b[..|b| - 1], id);
    }
  }

  /** Another kernel's name leaves it where it is. */
  lemma LearnHolds(lim: Limits, s: State, id: uint64, k: Name, e: Event, p: nat, behind: nat)
    requires Held(s, e, p, behind) && id != e.kernelID
    ensures Held(Learned(lim, s, id, k), e, p, behind)
  {
    var i: nat :| HeldAt(s, e, p, behind, i);
    var t := Learned(lim, s, id, k);
    HeldOthers(s.held, i, id);
    OfKernelOfOthers(s.held[..i], id, e.kernelID);
    OfAppend(s.sunk, Released(OfKernel(s.held, id), k.Resolved()), e.kernelID);
    OfReleased(OfKernel(s.held, id), k.Resolved(), e.kernelID);
    OfKernelOfOthers(s.held, id, e.kernelID);
    assert HeldAt(t, e, p, behind, |Others(s.held[..i], id)|);
  }

  /** Its own kernel's name releases it under that name; a flush under none. */
  lemma LearnReleases(lim: Limits, s: State, k: Name, e: Event, p: nat, behind: nat)
    requires Held(s, e, p, behind)
    ensures Sunk(Learned(lim, s, e.kernelID, k), e, p, Text(k), Text(k) != "")
  {
    var i: nat :| HeldAt(s, e, p, behind, i);
    OfKernelOfOthers(s.held, e.kernelID, e.kernelID);
    assert k.Resolved() == Text(k);
    ReleasedTogether(s, Learned(lim, s, e.kernelID, k), OfKernel(s.held, e.kernelID), Text(k), e, p, i);
  }

  lemma FlushReleases(s: State, e: Event, p: nat, behind: nat)
    requires Held(s, e, p, behind)
    ensures Sunk(Flushed(s), e, p, "", false)
  {
    var i: nat :| HeldAt(s, e, p, behind, i);
    ReleasedTogether(s, Flushed(s), s.held, "", e, p, i);
  }

  /** An event behind it may push it out, if it stands first and the queue is full. */
  lemma PushHolds(lim: Limits, s: State, f: Event, e: Event, p: nat, behind: nat)
    requires Held(s, e, p, behind)
    ensures var t := KernelNames.Held(lim, s, f);
      Held(t, e, p, behind + 1) || (behind + 1 >= lim.held && Sunk(t, e, p, "", false))
  {
    var i: nat :| HeldAt(s, e, p, behind, i);
    var t := KernelNames.Held(lim, s, f);
    if |s.held| < lim.held {
      assert t.held == s.held + [f] && t.held[..i] == s.held[..i];
      assert HeldAt(t, e, p, behind + 1, i);
    } else if i > 0 {
      PushedAlong(s, t, f, e, p, behind, i);
    } else {
      assert s.held[..0] == [];
      PushedOut(s, t, e, p);
    }
  }

  lemma PushedAlong(s: State, t: State, f: Event, e: Event, p: nat, behind: nat, i: nat)
    requires HeldAt(s, e, p, behind, i) && i > 0
    requires t.held == s.held[1..] + [f] && t.sunk == s.sunk + [Release(s.held[0], "")]
    ensures Held(t, e, p, behind + 1)
  {
    var d := Release(s.held[0], "");
    OfAppend(s.sunk, [d], e.kernelID);
    OfNone(d, e.kernelID);
    ShiftedBy(s.held, i, e.kernelID);
    assert t.held[..i - 1] == s.held[1..i] && t.held[i - 1] == s.held[i];
    assert HeldAt(t, e, p, behind + 1, i - 1);
  }

  lemma PushedOut(s: State, t: State, e: Event, p: nat)
    requires s.held != [] && s.held[0] == e && |Of(s.sunk, e.kernelID)| + |OfKernel([], e.kernelID)| == p
    requires t.sunk == s.sunk + [Release(e, "")]
    ensures Sunk(t, e, p, "", false)
  {
    OfAppend(s.sunk, [Release(e, "")], e.kernelID);
    OfNone(Release(e, ""), e.kernelID);
  }

  lemma ShiftedBy(held: seq<Event>, i: nat, id: uint64)
    requires 0 < i < |held|
    ensures |OfKernel(held[..i], id)| == |OfKernel([held[0]], id)| + |OfKernel(held[1..i], id)|
    ensures |OfKernel([held[0]], id)| == if held[0].kernelID == id then 1 else 0
  {
    assert held[..i] == [held[0]] + held[1..i];
    OfKernelAppend([held[0]], held[1..i], id);
    OfOne(held[0], id);
  }

  ghost predicate Names(step: Step, id: uint64) { step.Learn? && step.id == id }

  /** An event that does not join the queue passes one that waits in it. */
  lemma ArrivePasses(lim: Limits, s: State, f: Event, e: Event, p: nat, behind: nat)
    requires Waiting(lim, s) && Held(s, e, p, behind)
    requires f.kernelID == 0 || f.kernelID in s.table.byID
    ensures Held(Arrived(lim, s, f), e, p, behind)
  {
    var i: nat :| HeldAt(s, e, p, behind, i);
    var t := Arrived(lim, s, f);
    assert s.held[i] in s.held;
    OfAppend(s.sunk, [t.sunk[|s.sunk|]], e.kernelID);
    OfNone(t.sunk[|s.sunk|], e.kernelID);
    assert HeldAt(t, e, p, behind, i);
  }

  lemma StepHeld(lim: Limits, before: seq<Step>, s: State, step: Step, e: Event, p: nat, behind: nat)
    requires lim.names >= 1 && Current(lim, before, s) && Waiting(lim, s) && Held(s, e, p, behind)
    ensures var t := Next(lim, s, step);
      var more := behind + if MayWait(lim, before, step) then 1 else 0;
      if Names(step, e.kernelID) then Sunk(t, e, p, Text(step.name), Text(step.name) != "")
      else if step.Flush? then Sunk(t, e, p, "", false)
      else Held(t, e, p, more) || (more >= lim.held && Sunk(t, e, p, "", false))
  {
    match step
    case Learn(id, k) =>
      if id == e.kernelID {
        LearnReleases(lim, s, k, e, p, behind);
      } else {
        LearnHolds(lim, s, id, k, e, p, behind);
      }
    case Flush => FlushReleases(s, e, p, behind);
    case Arrive(f) =>
      if f.kernelID == 0 || f.kernelID in s.table.byID {
        ArrivePasses(lim, s, f, e, p, behind);
        HeldLonger(Next(lim, s, step), e, p, behind);
      } else {
        PushHolds(lim, s, f, e, p, behind);
      }
  }

  /** The same along a run. */
  lemma StepHeldOn(lim: Limits, steps: seq<Step>, e: Event, p: nat, behind: nat)
    requires lim.names >= 1 && steps != [] && Held(Run(lim, steps[..|steps| - 1]), e, p, behind)
    ensures var t, step := Run(lim, steps), steps[|steps| - 1];
      var more := behind + if MayWait(lim, steps[..|steps| - 1], step) then 1 else 0;
      if Names(step, e.kernelID) then Sunk(t, e, p, Text(step.name), Text(step.name) != "")
      else if step.Flush? then Sunk(t, e, p, "", false)
      else Held(t, e, p, more) || (more >= lim.held && Sunk(t, e, p, "", false))
  {
    var before := steps[..|steps| - 1];
    RunCurrent(lim, before);
    RunWaits(lim, before);
    StepHeld(lim, before, Run(lim, before), steps[|steps| - 1], e, p, behind);
  }

  lemma HeldLonger(s: State, e: Event, p: nat, behind: nat)
    requires Held(s, e, p, behind)
    ensures Held(s, e, p, behind + 1)
  {
    var i: nat :| HeldAt(s, e, p, behind, i);
    assert HeldAt(s, e, p, behind + 1, i);
  }

  // ----- The fate of every event.

  /** How many events of its kernel came before step n's. */
  function Place(steps: seq<Step>, n: nat): nat
    requires n < |steps| && steps[n].Arrive?
  {
    |OfKernel(Emitted(steps[..n]), steps[n].event.kernelID)|
  }

  /** The name was there when the event came. */
  ghost predicate WasKnown(steps: seq<Step>, n: nat, name: string)
    requires n < |steps| && steps[n].Arrive?
  {
    var id := steps[n].event.kernelID;
    id != 0 && Latest(steps[..n], id).Some? && name == Text(Latest(steps[..n], id).value)
  }

  /** It came while the event waited, the first of its kernel, before any flush. */
  ghost predicate Came(steps: seq<Step>, n: nat, name: string)
    requires n < |steps| && steps[n].Arrive?
  {
    var id := steps[n].event.kernelID;
    exists t :: n < t < |steps| && Names(steps[t], id) && Quiet(steps, id, n, t) && name == Text(steps[t].name)
  }

  /** Why an event goes without a name: it has no kernel, no name had been seen, as many
      events came after it as may wait, or everything waiting was flushed first. */
  ghost predicate Nameless(lim: Limits, steps: seq<Step>, n: nat)
    requires n < |steps| && steps[n].Arrive?
  {
    var id := steps[n].event.kernelID;
    || id == 0 || !Seen(steps[..n])
    || Further(lim, steps, n) >= lim.held
    || (exists t :: n < t < |steps| && steps[t].Flush? && Quiet(steps, id, n, t))
  }

  /** What an event was sunk under, and why. */
  ghost predicate Explained(lim: Limits, steps: seq<Step>, n: nat, name: string, named: bool)
    requires n < |steps| && steps[n].Arrive?
  {
    || (named && WasKnown(steps, n, name))
    || (named == (name != "") && Came(steps, n, name))
    || (!named && name == "" && Nameless(lim, steps, n))
  }

  ghost predicate StillHeld(lim: Limits, steps: seq<Step>, n: nat)
    requires n < |steps| && steps[n].Arrive?
  {
    && Held(Run(lim, steps), steps[n].event, Place(steps, n), Further(lim, steps, n))
    && Quiet(steps, steps[n].event.kernelID, n, |steps|)
  }

  ghost predicate SunkAs(lim: Limits, steps: seq<Step>, n: nat, name: string, named: bool)
    requires n < |steps| && steps[n].Arrive?
  {
    Sunk(Run(lim, steps), steps[n].event, Place(steps, n), name, named)
  }

  lemma ExplainedLater(lim: Limits, steps: seq<Step>, step: Step, n: nat, name: string, named: bool)
    requires n < |steps| && steps[n].Arrive? && Explained(lim, steps, n, name, named)
    ensures Explained(lim, steps + [step], n, name, named)
  {
    var all, id := steps + [step], steps[n].event.kernelID;
    assert all[..n] == steps[..n] && all[..|steps|] == steps;
    assert forall t :: 0 <= t < |steps| ==> all[t] == steps[t];
    assert forall t :: 0 <= t < |steps| ==> (Quiet(all, id, n, t) <==> Quiet(steps, id, n, t));
  }

  lemma {:induction false} SunkGrows(lim: Limits, s: State, step: Step) returns (more: seq<Delivery>)
    ensures Next(lim, s, step).sunk == s.sunk + more
  {
    more := Next(lim, s, step).sunk[|s.sunk|..];
  }

  /** An event that has to wait goes last. */
  lemma JoinsQueue(lim: Limits, s: State, emitted: seq<Event>, e: Event)
    requires InOrder(emitted, s, e.kernelID) && e.kernelID != 0 && s.sawName && e.kernelID !in s.table.byID
    ensures Held(Arrived(lim, s, e), e, |OfKernel(emitted, e.kernelID)|, 0)
  {
    var t, id := Arrived(lim, s, e), e.kernelID;
    HeldInOrder(lim, s, e, id);
    OfEvents(t.sunk, id);
    OfOne(e, id);
    var i := |t.held| - 1;
    assert t.held == t.held[..i] + [e];
    OfKernelAppend(t.held[..i], [e], id);
    assert HeldAt(t, e, |OfKernel(emitted, id)|, 0, i);
  }

  /** Any other goes to the sink. */
  lemma PassesThrough(lim: Limits, s: State, emitted: seq<Event>, e: Event)
    requires Waiting(lim, s) && InOrder(emitted, s, e.kernelID)
    requires !(e.kernelID != 0 && s.sawName && e.kernelID !in s.table.byID)
    ensures var known := e.kernelID != 0 && e.kernelID in s.table.byID;
      Sunk(Arrived(lim, s, e), e, |OfKernel(emitted, e.kernelID)|,
           if known then Text(s.table.byID[e.kernelID]) else "", known)
  {
    var t, id := Arrived(lim, s, e), e.kernelID;
    var known := id != 0 && id in s.table.byID;
    var d := Delivery(e, if known then Text(s.table.byID[id]) else "", known);
    assert t.sunk == s.sunk + [d];
    forall h | h in s.held ensures h.kernelID != id {
    }
    NoneHeld(s.held, id);
    assert OfKernel(emitted, id) == OfKernel(Events(s.sunk), id);
    SunkLast(s, t, d);
  }

  lemma SunkLast(s: State, t: State, d: Delivery)
    requires t.sunk == s.sunk + [d]
    ensures Sunk(t, d.event, |OfKernel(Events(s.sunk), d.event.kernelID)|, d.name, d.named)
  {
    OfEvents(s.sunk, d.event.kernelID);
    OfAppend(s.sunk, [d], d.event.kernelID);
    OfNone(d, d.event.kernelID);
  }

  ghost predicate Fated(lim: Limits, steps: seq<Step>, n: nat)
    requires n < |steps| && steps[n].Arrive?
  {
    || StillHeld(lim, steps, n)
    || (exists name, named :: SunkAs(lim, steps, n, name, named) && Explained(lim, steps, n, name, named))
  }

  /** How an event comes in. */
  lemma Enters(lim: Limits, steps: seq<Step>)
    requires lim.names >= 1 && steps != [] && steps[|steps| - 1].Arrive?
    ensures Fated(lim, steps, |steps| - 1)
  {
    var n := |steps| - 1;
    var before, e := steps[..n], steps[n].event;
    var s := Run(lim, before);
    RunCurrent(lim, before);
    HeldOnceInOrder(lim, before, e.kernelID);
    if e.kernelID != 0 && s.sawName && e.kernelID !in s.table.byID {
      JoinsQueue(lim, s, Emitted(before), e);
      assert Quiet(steps, e.kernelID, n, |steps|);
    } else {
      PassesThrough(lim, s, Emitted(before), e);
      var known := e.kernelID != 0 && e.kernelID in s.table.byID;
      EntersExplained(lim, steps, s, known);
    }
  }

  lemma EntersExplained(lim: Limits, steps: seq<Step>, s: State, known: bool)
    requires steps != [] && steps[|steps| - 1].Arrive? && Current(lim, steps[..|steps| - 1], s)
    requires var id := steps[|steps| - 1].event.kernelID;
      && (known <==> id != 0 && id in s.table.byID)
      && !(id != 0 && s.sawName && id !in s.table.byID)
    requires SunkAs(lim, steps, |steps| - 1,
                    if known then Text(s.table.byID[steps[|steps| - 1].event.kernelID]) else "", known)
    ensures Fated(lim, steps, |steps| - 1)
  {
    var n := |steps| - 1;
    var name := if known then Text(s.table.byID[steps[n].event.kernelID]) else "";
    assert Explained(lim, steps, n, name, known);
  }

  /** How it goes on: waiting, */
  lemma WaitsOn(lim: Limits, steps: seq<Step>, n: nat)
    requires lim.names >= 1 && n + 1 < |steps| && steps[n].Arrive? && StillHeld(lim, steps[..|steps| - 1], n)
    ensures Fated(lim, steps, n)
  {
    var m := |steps| - 1;
    var before, e := steps[..m], steps[n].event;
    assert before[..n] == steps[..n];
    StepHeldOn(lim, steps, e, Place(steps, n), Further(lim, before, n));
    QuietOn(steps, e.kernelID, n);
    Resolves(lim, steps, n);
  }

  /** or delivered. */
  lemma StaysSunk(lim: Limits, steps: seq<Step>, n: nat, name: string, named: bool)
    requires n + 1 < |steps| && steps[n].Arrive?
    requires SunkAs(lim, steps[..|steps| - 1], n, name, named) && Explained(lim, steps[..|steps| - 1], n, name, named)
    ensures SunkAs(lim, steps, n, name, named) && Explained(lim, steps, n, name, named)
  {
    var m := |steps| - 1;
    var before, step := steps[..m], steps[m];
    assert before[..n] == steps[..n];
    var more := SunkGrows(lim, Run(lim, before), step);
    SunkStays(Run(lim, before), Run(lim, steps), more, steps[n].event, Place(steps, n), name, named);
    ExplainedLater(lim, before, step, n, name, named);
    assert steps == before + [step];
  }

  lemma GoesOn(lim: Limits, steps: seq<Step>, n: nat)
    requires lim.names >= 1 && n + 1 < |steps| && steps[n].Arrive? && Fated(lim, steps[..|steps| - 1], n)
    ensures Fated(lim, steps, n)
  {
    var before := steps[..|steps| - 1];
    if StillHeld(lim, before, n) {
      WaitsOn(lim, steps, n);
    } else {
      var name, named :| SunkAs(lim, before, n, name, named) && Explained(lim, before, n, name, named);
      StaysSunk(lim, steps, n, name, named);
    }
  }

  lemma QuietOn(steps: seq<Step>, id: uint64, n: nat)
    requires n + 1 < |steps| && Quiet(steps[..|steps| - 1], id, n, |steps| - 1)
    ensures Quiet(steps, id, n, |steps| - 1)
    ensures Quiet(steps, id, n, |steps|) <==> !Names(steps[|steps| - 1], id) && !steps[|steps| - 1].Flush?
  {
    var m := |steps| - 1;
    assert forall i :: 0 <= i < m ==> steps[..m][i] == steps[i];
  }

  /** What the last step made of an event that was waiting. */
  lemma Resolves(lim: Limits, steps: seq<Step>, n: nat)
    requires n + 1 < |steps| && steps[n].Arrive?
    requires var m, e := |steps| - 1, steps[n].event;
      && Quiet(steps, e.kernelID, n, m)
      && (if Names(steps[m], e.kernelID) then
            SunkAs(lim, steps, n, Text(steps[m].name), Text(steps[m].name) != "")
          else if steps[m].Flush? then SunkAs(lim, steps, n, "", false)
          else
            || Held(Run(lim, steps), e, Place(steps, n), Further(lim, steps, n))
            || (Further(lim, steps, n) >= lim.held && SunkAs(lim, steps, n, "", false)))
    requires !Names(steps[|steps| - 1], steps[n].event.kernelID) && !steps[|steps| - 1].Flush? ==>
      Quiet(steps, steps[n].event.kernelID, n, |steps|)
    ensures Fated(lim, steps, n)
  {
    var m, id := |steps| - 1, steps[n].event.kernelID;
    if Names(steps[m], id) {
      assert Came(steps, n, Text(steps[m].name));
      assert Explained(lim, steps, n, Text(steps[m].name), Text(steps[m].name) != "");
    } else if steps[m].Flush? {
      assert Nameless(lim, steps, n);
      assert Explained(lim, steps, n, "", false);
    } else if SunkAs(lim, steps, n, "", false) && Further(lim, steps, n) >= lim.held {
      assert Explained(lim, steps, n, "", false);
    }
  }

  /** The fate of every event, over every run and on the steps alone: it is still waiting, or
      it went to the sink under the name known when it came, under the first name that came
      for it, or under none for one of the reasons there are. */
  lemma {:induction false} EveryFate(lim: Limits, steps: seq<Step>, n: nat)
    requires lim.names >= 1 && n < |steps| && steps[n].Arrive?
    ensures Fated(lim, steps, n)
  {
    if n == |steps| - 1 {
      Enters(lim, steps);
    } else {
      EveryFate(lim, steps[..|steps| - 1], n);
      GoesOn(lim, steps, n);
    }
  }

  /** An event held for a name that comes before a flush and before as many further events
      as may wait is delivered under that name. */
  lemma NamedLater(lim: Limits, steps: seq<Step>, n: nat)
    requires lim.names >= 1 && n + 1 < |steps| && steps[n].Arrive?
    requires var id := steps[n].event.kernelID;
      && id != 0 && id !in Learnt(steps[..n]) && Seen(steps[..n])
      && Names(steps[|steps| - 1], id) && Quiet(steps, id, n, |steps| - 1)
      && Further(lim, steps[..|steps| - 1], n) < lim.held
    ensures var name := Text(steps[|steps| - 1].name); SunkAs(lim, steps, n, name, name != "")
  {
    var before, e := steps[..|steps| - 1], steps[n].event;
    assert before[..n] == steps[..n] && before[n] == steps[n];
    StillThere(lim, before, n);
    StepHeldOn(lim, steps, e, Place(steps, n), Further(lim, before, n));
  }

  lemma StillThere(lim: Limits, steps: seq<Step>, n: nat)
    requires lim.names >= 1 && n < |steps| && steps[n].Arrive?
    requires var id := steps[n].event.kernelID;
      && id != 0 && id !in Learnt(steps[..n]) && Seen(steps[..n]) && Further(lim, steps, n) < lim.held
      && Quiet(steps, id, n, |steps|)
    ensures StillHeld(lim, steps, n)
  {
    EveryFate(lim, steps, n);
    LatestLearnt(steps[..n], steps[n].event.kernelID);
    StillWaits(lim, steps, n);
  }

  lemma StillWaits(lim: Limits, steps: seq<Step>, n: nat)
    requires n < |steps| && steps[n].Arrive? && Fated(lim, steps, n)
    requires var id := steps[n].event.kernelID;
      && id != 0 && Latest(steps[..n], id).None? && Seen(steps[..n]) && Further(lim, steps, n) < lim.held
      && Quiet(steps, id, n, |steps|)
    ensures StillHeld(lim, steps, n)
  {
  }
}
