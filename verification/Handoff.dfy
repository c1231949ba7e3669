/** A whole sample: the native walk, the handoffs to other unwinders in the middle of it,
    and the record both sides append to (bpf/unwind_common.h, bpf/unwind_record.h,
    unwind/interp/frame.go). */
module Handoff {
  import opened Machine
  import opened Unwind

  const TAIL_CALL_BUDGET: int := 10

  // ----- Reading a record back.

  datatype Item = Native(pc: uint64) | Interp(unwinder: uint8, pc: uint64, extra: uint64)

  /** Fold tagged slots into frames; the flag says a pair was cut in half. */
  function Split(slots: seq<Slot>): (r: (seq<Item>, bool)) {
    if slots == [] then ([], false)
    else if slots[0].tag == TAG_NATIVE then
      var rest := Split(slots[1..]);
      ([Native(slots[0].word)] + rest.0, rest.1)
    else if |slots| == 1 then ([], true)
    else
      var rest := Split(slots[2..]);
      ([Interp(slots[0].tag, slots[0].word, slots[1].word)] + rest.0, rest.1)
  }

  function NativeIPs(items: seq<Item>): seq<uint64> {
    if items == [] then []
    else (if items[0].Native? then [items[0].pc] else []) + NativeIPs(items[1..])
  }

  /** The instruction pointers a symbolizer is handed. */
  function Natives(slots: seq<Slot>): seq<uint64> { NativeIPs(Split(slots).0) }

  /** Every slot belongs to a whole frame. */
  predicate Whole(slots: seq<Slot>) { !Split(slots).1 }

  lemma {:induction false} SplitAppend(a: seq<Slot>, b: seq<Slot>)
    requires Whole(a)
    ensures Split(a + b) == (Split(a).0 + Split(b).0, Split(b).1)
  {
    if a == [] {
      assert a + b == b;
      assert [] + Split(b).0 == Split(b).0;
    } else if a[0].tag == TAG_NATIVE {
      assert (a + b)[1..] == a[1..] + b;
      SplitAppend(a[1..], b);
      assert Split(a).0 + Split(b).0 == [Native(a[0].word)] + (Split(a[1..]).0 + Split(b).0);
    } else {
      assert (a + b)[2..] == a[2..] + b;
      SplitAppend(a[2..], b);
      var pair := Interp(a[0].tag, a[0].word, a[1].word);
      assert Split(a).0 + Split(b).0 == [pair] + (Split(a[2..]).0 + Split(b).0);
    }
  }

  lemma {:induction false} NativeIPsAppend(a: seq<Item>, b: seq<Item>)
    ensures NativeIPs(a + b) == NativeIPs(a) + NativeIPs(b)
  {
    if a == [] {
      assert a + b == b;
    } else {
      var first := if a[0].Native? then [a[0].pc] else [];
      NativeIPsAppend(a[1..], b);
      assert (a + b)[1..] == a[1..] + b;
      assert NativeIPs(a + b) == first + (NativeIPs(a[1..]) + NativeIPs(b));
      assert first + (NativeIPs(a[1..]) + NativeIPs(b)) == (first + NativeIPs(a[1..])) + NativeIPs(b);
    }
  }

  /** A native push adds exactly one frame, its own. */
  lemma NativePushed(slots: seq<Slot>, pc: uint64)
    requires Whole(slots)
    ensures var r := slots + [Slot(TAG_NATIVE, pc)];
      && Whole(r)
      && Split(r).0 == Split(slots).0 + [Native(pc)]
      && Natives(r) == Natives(slots) + [pc]
  {
    var tail := [Slot(TAG_NATIVE, pc)];
    SplitAppend(slots, tail);
    assert tail[1..] == [];
    assert Split(tail).0 == [Native(pc)];
    NativeIPsAppend(Split(slots).0, [Native(pc)]);
  }

  /** A pair push adds exactly one interpreter frame and no instruction pointer. */
  lemma PairPushed(slots: seq<Slot>, tag: uint8, a: uint64, b: uint64)
    requires Whole(slots) && tag != TAG_NATIVE
    ensures var r := slots + [Slot(tag, a), Slot(tag, b)];
      && Whole(r)
      && Split(r).0 == Split(slots).0 + [Interp(tag, a, b)]
      && Natives(r) == Natives(slots)
  {
    var tail := [Slot(tag, a), Slot(tag, b)];
    SplitAppend(slots, tail);
    assert tail[2..] == [];
    assert Split(tail).0 == [Interp(tag, a, b)];
    NativeIPsAppend(Split(slots).0, [Interp(tag, a, b)]);
    assert NativeIPs([Interp(tag, a, b)]) == [];
  }

  /** Words beside their tags; a word past the last tag is native. */
  function Tagged(pcs: seq<uint64>, tags: seq<uint8>): (slots: seq<Slot>)
    ensures |slots| == |pcs|
    ensures forall i :: 0 <= i < |pcs| ==> slots[i] == Slot(if i < |tags| then tags[i] else TAG_NATIVE, pcs[i])
  {
    seq(|pcs|, i requires 0 <= i < |pcs| => Slot(if i < |tags| then tags[i] else TAG_NATIVE, pcs[i]))
  }

  /** One slot or one pair taken off the front. */
  lemma SplitFront(items: seq<Item>, slots: seq<Slot>, i: nat)
    requires i < |slots|
    ensures slots[i].tag == TAG_NATIVE ==>
      && items + Split(slots[i..]).0 == items + [Native(slots[i].word)] + Split(slots[i + 1..]).0
      && Split(slots[i..]).1 == Split(slots[i + 1..]).1
    ensures slots[i].tag != TAG_NATIVE && i + 1 < |slots| ==>
      && items + Split(slots[i..]).0
         == items + [Interp(slots[i].tag, slots[i].word, slots[i + 1].word)] + Split(slots[i + 2..]).0
      && Split(slots[i..]).1 == Split(slots[i + 2..]).1
    ensures slots[i].tag != TAG_NATIVE && i + 1 == |slots| ==> Split(slots[i..]) == ([], true)
  {
    assert slots[i..][1..] == slots[i + 1..];
    if i + 1 < |slots| {
      assert slots[i..][2..] == slots[i + 2..];
    }
  }

  /** The consumer's loop over tagged slots. */
  method SplitSlots(pcs: seq<uint64>, tags: seq<uint8>) returns (items: seq<Item>, truncatedPair: bool)
    ensures items == Split(Tagged(pcs, tags)).0 && truncatedPair == Split(Tagged(pcs, tags)).1
  {
    items := [];
    var i := 0;
    ghost var slots := Tagged(pcs, tags);
    assert slots[0..] == slots && [] + Split(slots).0 == Split(slots).0;
    while i < |pcs|
      invariant 0 <= i <= |pcs|
      invariant Split(slots) == (items + Split(slots[i..]).0, Split(slots[i..]).1)
    {
      SplitFront(items, slots, i);
      if i >= |tags| || tags[i] == TAG_NATIVE {
        items := items + [Native(pcs[i])];
        i := i + 1;
        continue;
      }
      if i + 1 >= |pcs| {
        assert items + [] == items;
        return items, true;
      }
      items := items + [Interp(tags[i], pcs[i], pcs[i + 1])];
      i := i + 2;
    }
    assert slots[i..] == [] && items + [] == items;
    return items, false;
  }

  // ----- One sample as a state machine.

  /** Where a sample stands. Walking is inside bpf_loop; LoopDone is the driver deciding
      whether to dispatch; InModule is another unwinder running in its place; Resuming and
      Rewalking are the driver's two resume programs; Finished has a record to emit;
      Vanished is a tail call that left nobody to emit it. */
  datatype Phase = Walking(left: nat) | LoopDone | InModule | Resuming | Rewalking | Finished | Vanished

  datatype Sample = Sample(w: Walk, phase: Phase, stopped: bool, roundTrips: nat,
                           claimed: nat, dispatched: nat, refusedBudget: nat, tailCalls: nat)

  function Begin(pc: uint64, fp: uint64, sp: uint64): Walk {
    Walk(pc, fp, sp, [], {}, UNWINDER_NATIVE, {})
  }

  function Init(pc: uint64, fp: uint64, sp: uint64): Sample {
    Sample(Begin(pc, fp, sp), Walking(MAX_FRAMES), false, 0, 0, 0, 0, 0)
  }

  ghost predicate WalkStep(env: Env, interp: bool, s: Sample, t: Sample) {
    s.phase.Walking?
    && if s.phase.left == 0 then t == s.(phase := LoopDone)
       else
         var (w, stop) := LeadFrame(env, interp, s.w);
         t == s.(w := w, phase := if stop then LoopDone else Walking(s.phase.left - 1),
                 claimed := s.claimed + if w.pending != UNWINDER_NATIVE then 1 else 0)
  }

  /** The driver's choice after the loop. The tail call may not happen: an empty slot. */
  ghost predicate DispatchStep(interp: bool, s: Sample, t: Sample) {
    s.phase == LoopDone
    && if !interp || s.w.pending == UNWINDER_NATIVE then t == s.(phase := Finished)
       else if s.roundTrips >= TAIL_CALL_BUDGET then
         t == s.(phase := Finished, refusedBudget := s.refusedBudget + 1)
       else
         var d := s.(w := s.w.(pending := UNWINDER_NATIVE), roundTrips := s.roundTrips + 1,
                     dispatched := s.dispatched + 1);
         t == d.(phase := Finished) || t == d.(phase := InModule, tailCalls := s.tailCalls + 1)
  }

  /** A module may append pairs and declare itself done; it may hand back, or not. It
      leaves pc, fp and sp alone. */
  ghost predicate ModuleStep(s: Sample, t: Sample) {
    s.phase == InModule
    && (|| (exists tag: uint8, a: uint64, b: uint64 ::
              tag != TAG_NATIVE && t == s.(w := PushPair(s.w, tag, a, b)))
        || (exists bits: set<int> :: t == s.(w := s.w.(done := s.w.done + bits)))
        || t == s.(phase := Resuming, tailCalls := s.tailCalls + 1)
        || t == s.(phase := Vanished))
  }

  ghost predicate ResumeStep(env: Env, s: Sample, t: Sample) {
    || (s.phase == Resuming
        && var (w, stop) := Advance(env, s.w);
           var r := s.(w := w, stopped := s.stopped || stop);
           t == r.(phase := Rewalking, tailCalls := s.tailCalls + 1) || t == r.(phase := Vanished))
    || (s.phase == Rewalking
        && t == s.(phase := if s.stopped then Finished else Walking(MAX_FRAMES)))
  }

  ghost predicate Next(env: Env, interp: bool, s: Sample, t: Sample) {
    WalkStep(env, interp, s, t) || DispatchStep(interp, s, t) || ModuleStep(s, t) || ResumeStep(env, s, t)
  }

  ghost predicate StepAt(env: Env, interp: bool, run: seq<Sample>, i: int)
    requires 0 < i < |run|
  {
    Next(env, interp, run[i - 1], run[i])
  }

  /** Every sequence of states a sample can go through. */
  ghost predicate IsRun(env: Env, interp: bool, run: seq<Sample>) {
    && run != []
    && (exists pc: uint64, fp: uint64, sp: uint64 :: run[0] == Init(pc, fp, sp))
    && (forall i :: 0 < i < |run| ==> StepAt(env, interp, run, i))
  }

  // ----- The invariants every step keeps.

  /** The walk may still move: something will unwind past the frame it stands on. */
  predicate Active(s: Sample) {
    match s.phase
    case Walking(_) => true
    case LoopDone => s.w.pending != UNWINDER_NATIVE
    case InModule => true
    case Resuming => true
    case Rewalking => !s.stopped
    case Finished => false
    case Vanished => false
  }

  /** How many of the five ways a walk can say it ended are set. */
  function Endings(flags: set<Flag>): nat {
    (if RaUndefined in flags then 1 else 0) + (if RootDisagreement in flags then 1 else 0)
    + (if FpExhausted in flags then 1 else 0) + (if FpNonmonotonic in flags then 1 else 0)
    + (if RaZero in flags then 1 else 0)
  }

  /** Record integrity: in bounds, and made of whole frames only. */
  predicate Intact(w: Walk) { |w.slots| <= MAX_FRAMES && Whole(w.slots) }

  /** How a walk ended is said at most once, and an active walk has not said it. */
  ghost predicate OneEnding(s: Sample) {
    && Endings(s.w.flags) <= (if Active(s) then 0 else 1)
    && (Active(s) && FpTerminated in s.w.flags ==> s.w.fp == 0)
    && (RootDisagreement in s.w.flags ==> FpTerminated in s.w.flags)
    && (FpTerminated in s.w.flags ==> FpExhausted !in s.w.flags && FpNonmonotonic !in s.w.flags && RaZero !in s.w.flags)
  }

  /** Dispatch accounting. */
  predicate Accounted(interp: bool, s: Sample) {
    && s.dispatched == s.roundTrips <= TAIL_CALL_BUDGET
    && s.claimed == s.dispatched + s.refusedBudget
         + (if s.phase == LoopDone && s.w.pending != UNWINDER_NATIVE then 1 else 0)
    && (s.w.pending != UNWINDER_NATIVE ==> interp && (s.phase == LoopDone || s.phase == Finished))
    && s.tailCalls <= 3 * s.dispatched
    && (s.phase == InModule ==> s.tailCalls <= 3 * s.dispatched - 2)
    && (s.phase == Resuming ==> s.tailCalls <= 3 * s.dispatched - 1)
  }

  lemma AdvanceEnding(env: Env, w: Walk)
    ensures var (r, stop) := Advance(env, w);
      var o := Decide(env, w.pc, w.fp, w.sp, FpChainEnded(w));
      && stop == o.caller.None?
      && r.flags - {FramePushRefused} == (w.flags + o.raises) - {FramePushRefused}
      && r.pending == w.pending && r.done == w.done
      && (!stop ==> r.slots == w.slots && (r.pc, r.fp, r.sp) == o.caller.value)
      && (stop ==> (r.pc, r.fp, r.sp) == (w.pc, w.fp, w.sp))
  {
  }

  /** What one decision may raise: an ending only when it stops, and consistently with
      whether the frame-pointer chain had already ended. */
  ghost predicate GoodOutcome(o: Outcome, fp: uint64, ended: bool) {
    && Endings(o.raises) <= (if o.caller.Some? then 0 else 1)
    && (o.caller.Some? && FpTerminated in o.raises ==> o.caller.value.1 == 0)
    && (RootDisagreement in o.raises ==> ended)
    && (ended || FpTerminated in o.raises ==> FpExhausted !in o.raises && RaZero !in o.raises)
    && (FpTerminated in o.raises ==> FpNonmonotonic !in o.raises)
    && (fp == 0 ==> FpNonmonotonic !in o.raises && FpTerminated !in o.raises)
    && (ended && fp == 0 ==> o.caller.None? && o.extra.None?)
    && FramePushRefused !in o.raises
  }

  lemma DecideEnding(env: Env, pc: uint64, fp: uint64, sp: uint64, ended: bool)
    ensures GoodOutcome(Decide(env, pc, fp, sp, ended), fp, ended)
  {
    match RowFor(env, pc)
    case Some(e) =>
      assert GoodOutcome(TableStep(env, e, fp, sp, ended), fp, ended);
    case None =>
      assert GoodOutcome(FramePointerStep(env, fp, ended), fp, ended);
  }

  ghost predicate Inv(interp: bool, s: Sample) {
    Intact(s.w) && OneEnding(s) && Accounted(interp, s)
  }

  /** A frame pushed where there is room reads back as the last one, whole; where there is
      none it is refused and flagged, and nothing else of the record changes. */
  lemma PushedReadsBack(w: Walk, pc: uint64, tag: uint8, a: uint64, b: uint64)
    requires Intact(w) && tag != 0
    ensures var r := PushNative(w, pc);
      if |w.slots| < 127 then Split(r.slots) == (Split(w.slots).0 + [Native(pc)], false) && r.flags == w.flags
      else r.slots == w.slots && r.flags == w.flags + {FramePushRefused}
    ensures var r := PushPair(w, tag, a, b);
      if |w.slots| <= 125 then Split(r.slots) == (Split(w.slots).0 + [Interp(tag, a, b)], false) && r.flags == w.flags
      else r.slots == w.slots && r.flags == w.flags + {FramePushRefused}
  {
    NativePushed(w.slots, pc);
    PairPushed(w.slots, tag, a, b);
  }

  // Record integrity, operation by operation.

  lemma PushIntact(w: Walk, pc: uint64)
    requires Intact(w)
    ensures Intact(PushNative(w, pc))
    ensures Natives(PushNative(w, pc).slots) == Natives(w.slots) + if |w.slots| < MAX_FRAMES then [pc] else []
  {
    NativePushed(w.slots, pc);
    assert Natives(w.slots) + [] == Natives(w.slots);
  }

  lemma AdvanceIntact(env: Env, w: Walk)
    requires Intact(w)
    ensures Intact(Advance(env, w).0)
    ensures Natives(w.slots) <= Natives(Advance(env, w).0.slots)
  {
    var o := Decide(env, w.pc, w.fp, w.sp, FpChainEnded(w));
    if o.caller.None? && o.extra.Some? {
      PushIntact(w.(flags := w.flags + o.raises), o.extra.value);
    }
  }

  lemma LeadIntact(env: Env, interp: bool, w: Walk)
    requires Intact(w)
    ensures Intact(LeadFrame(env, interp, w).0)
    ensures Natives(w.slots) <= Natives(LeadFrame(env, interp, w).0.slots)
  {
    PushIntact(w, w.pc);
    AdvanceIntact(env, PushNative(w, w.pc));
  }

  lemma ModuleIntact(s: Sample, t: Sample)
    requires Intact(s.w) && ModuleStep(s, t)
    ensures Intact(t.w) && Natives(t.w.slots) == Natives(s.w.slots)
    ensures (t.w.pc, t.w.fp, t.w.sp, t.w.pending) == (s.w.pc, s.w.fp, s.w.sp, s.w.pending)
    ensures t.w.flags - {FramePushRefused} == s.w.flags - {FramePushRefused}
  {
    if tag: uint8, a: uint64, b: uint64 :| tag != TAG_NATIVE && t == s.(w := PushPair(s.w, tag, a, b)) {
      PairPushed(s.w.slots, tag, a, b);
    }
  }

  lemma StepIntact(env: Env, interp: bool, s: Sample, t: Sample)
    requires Intact(s.w) && Next(env, interp, s, t)
    ensures Intact(t.w)
  {
    if ModuleStep(s, t) {
      ModuleIntact(s, t);
    } else {
      LeadIntact(env, interp, s.w);
      AdvanceIntact(env, s.w);
    }
  }

  // Endings.

  lemma AdvanceOneEnding(env: Env, w: Walk)
    requires Endings(w.flags) == 0 && RootDisagreement !in w.flags
    requires FpTerminated in w.flags ==> w.fp == 0
    ensures var (r, stop) := Advance(env, w);
      && Endings(r.flags) <= (if stop then 1 else 0)
      && (!stop && FpTerminated in r.flags ==> r.fp == 0)
      && (RootDisagreement in r.flags ==> FpTerminated in r.flags)
      && (FpTerminated in r.flags ==> FpExhausted !in r.flags && FpNonmonotonic !in r.flags && RaZero !in r.flags)
      && r.pending == w.pending
      && (FpTerminated in w.flags ==> stop && FpTerminated in r.flags && r.slots == w.slots)
  {
    DecideEnding(env, w.pc, w.fp, w.sp, FpChainEnded(w));
  }

  lemma LeadOneEnding(env: Env, interp: bool, w: Walk)
    requires Endings(w.flags) == 0 && RootDisagreement !in w.flags && w.pending == UNWINDER_NATIVE
    requires FpTerminated in w.flags ==> w.fp == 0
    ensures var (r, stop) := LeadFrame(env, interp, w);
      && Endings(r.flags) <= (if stop && r.pending == UNWINDER_NATIVE then 1 else 0)
      && ((!stop || r.pending != UNWINDER_NATIVE) && FpTerminated in r.flags ==> r.fp == 0)
      && (RootDisagreement in r.flags ==> FpTerminated in r.flags)
      && (FpTerminated in r.flags ==> FpExhausted !in r.flags && FpNonmonotonic !in r.flags && RaZero !in r.flags)
      && (r.pending != UNWINDER_NATIVE ==> interp && stop)
      && (FpTerminated in w.flags ==> stop && FpTerminated in r.flags)
  {
    AdvanceOneEnding(env, PushNative(w, w.pc));
  }

  lemma StepOneEnding(env: Env, interp: bool, s: Sample, t: Sample)
    requires Inv(interp, s) && Next(env, interp, s, t)
    ensures OneEnding(t)
  {
    if WalkStep(env, interp, s, t) {
      LeadOneEnding(env, interp, s.w);
    } else if ModuleStep(s, t) {
      ModuleIntact(s, t);
      assert forall f :: f != FramePushRefused ==> (f in t.w.flags <==> f in s.w.flags - {FramePushRefused});
    } else if ResumeStep(env, s, t) && s.phase == Resuming {
      AdvanceOneEnding(env, s.w);
    }
  }

  lemma StepAccounted(env: Env, interp: bool, s: Sample, t: Sample)
    requires Inv(interp, s) && Next(env, interp, s, t)
    ensures Accounted(interp, t)
  {
    if WalkStep(env, interp, s, t) {
      LeadOneEnding(env, interp, s.w);
    } else if ModuleStep(s, t) {
      ModuleIntact(s, t);
    } else if ResumeStep(env, s, t) {
      AdvanceEnding(env, s.w);
    }
  }

  lemma StepInv(env: Env, interp: bool, s: Sample, t: Sample)
    requires Inv(interp, s) && Next(env, interp, s, t)
    ensures Inv(interp, t)
  {
    StepIntact(env, interp, s, t);
    StepOneEnding(env, interp, s, t);
    StepAccounted(env, interp, s, t);
  }

  lemma InitInv(interp: bool, pc: uint64, fp: uint64, sp: uint64)
    ensures Inv(interp, Init(pc, fp, sp))
  {
  }

  /** Every state of every run, for any memory, tables, claims and modules: the record is
      whole and in bounds, at most one ending is said, and every claim is accounted for. */
  lemma {:induction false} RunInv(env: Env, interp: bool, run: seq<Sample>, i: nat)
    requires IsRun(env, interp, run) && i < |run|
    ensures Inv(interp, run[i])
  {
    if i == 0 {
      var pc: uint64, fp: uint64, sp: uint64 :| run[0] == Init(pc, fp, sp);
      InitInv(interp, pc, fp, sp);
    } else {
      RunInv(env, interp, run, i - 1);
      assert StepAt(env, interp, run, i);
      StepInv(env, interp, run[i - 1], run[i]);
    }
  }

  // ----- What the invariants add up to.

  /** A sample makes at most ten dispatches and thirty tail calls, and once the driver has
      decided, every claim was either dispatched or refused for want of budget. */
  lemma DispatchBounds(env: Env, interp: bool, run: seq<Sample>, i: nat)
    requires IsRun(env, interp, run) && i < |run|
    ensures run[i].dispatched <= 10 && run[i].tailCalls <= 30
    ensures run[i].phase != LoopDone ==> run[i].claimed == run[i].dispatched + run[i].refusedBudget
  {
    RunInv(env, interp, run, i);
  }

  /** Native pushes still possible once the frame-pointer chain has ended. */
  function Allowance(s: Sample): nat {
    if s.phase.Walking? || (s.phase == Rewalking && !s.stopped) then 1 else 0
  }

  lemma {:induction false} StepAfterRoot(env: Env, interp: bool, s: Sample, t: Sample)
    requires Inv(interp, s) && Next(env, interp, s, t) && FpTerminated in s.w.flags
    ensures FpTerminated in t.w.flags
    ensures |Natives(t.w.slots)| + Allowance(t) <= |Natives(s.w.slots)| + Allowance(s)
  {
    if WalkStep(env, interp, s, t) {
      LeadOneEnding(env, interp, s.w);
      PushIntact(s.w, s.w.pc);
      AdvanceOneEnding(env, PushNative(s.w, s.w.pc));
    } else if ModuleStep(s, t) {
      ModuleIntact(s, t);
      assert FpTerminated in s.w.flags - {FramePushRefused};
    } else if ResumeStep(env, s, t) && s.phase == Resuming {
      AdvanceOneEnding(env, s.w);
    }
  }

  /** The step past the root is a single one: after the chain's end marker is read, at most
      one more native frame is ever pushed, handoffs or not. */
  lemma {:induction false} OneFramePastRoot(env: Env, interp: bool, run: seq<Sample>, i: nat, j: nat)
    requires IsRun(env, interp, run) && i <= j < |run| && FpTerminated in run[i].w.flags
    ensures |Natives(run[j].w.slots)| <= |Natives(run[i].w.slots)| + 1
    ensures FpTerminated in run[j].w.flags
    ensures |Natives(run[j].w.slots)| + Allowance(run[j]) <= |Natives(run[i].w.slots)| + Allowance(run[i])
  {
    if i < j {
      OneFramePastRoot(env, interp, run, i, j - 1);
      RunInv(env, interp, run, j - 1);
      assert StepAt(env, interp, run, j);
      StepAfterRoot(env, interp, run[j - 1], run[j]);
    }
  }

  // ----- Who is offered a frame.

  /** A frame is offered to the unwinder that claims its text, unless that one is done. */
  ghost predicate Claims(env: Env, pc: uint64, id: uint32) {
    && env.mapping(pc).Some?
    && env.claimant(env.mapping(pc).value.tableId, env.mapping(pc).value.relPc) == Some(id)
  }

  /** A loop iteration with room left records its frame and, handoffs enabled, stops for an
      unwinder exactly when that one claims the frame, is not the native walker and has not
      declared itself done, one bit in 32 for each. */
  lemma OfferedIff(env: Env, w: Walk, id: uint32)
    requires |w.slots| < 127 && w.pending == UNWINDER_NATIVE && id != 0
    ensures var (r, stop) := LeadFrame(env, true, w);
      && (r.pending == id <==> Claims(env, w.pc, id) && id % 32 !in w.done)
      && (r.pending == id ==> stop && r == w.(slots := w.slots + [Slot(0, w.pc)], pending := id))
  {
    AdvanceEnding(env, PushNative(w, w.pc));
  }

  lemma StepDone(env: Env, interp: bool, s: Sample, t: Sample)
    requires Next(env, interp, s, t)
    ensures s.w.done <= t.w.done
    ensures t.w.pending == s.w.pending || t.w.pending == UNWINDER_NATIVE || t.w.pending % 32 !in t.w.done
  {
    if WalkStep(env, interp, s, t) && s.phase.left > 0 {
      AdvanceEnding(env, PushNative(s.w, s.w.pc));
    } else if ResumeStep(env, s, t) && s.phase == Resuming {
      AdvanceEnding(env, s.w);
    }
  }

  /** An unwinder that declared itself done is not offered another frame of the sample. */
  lemma {:induction false} NotOfferedAgain(env: Env, interp: bool, run: seq<Sample>, i: nat, j: nat)
    requires IsRun(env, interp, run) && i < j < |run| && run[i].phase == InModule
    ensures run[i].w.done <= run[j].w.done
    ensures run[j].w.pending != UNWINDER_NATIVE ==> run[j].w.pending % 32 !in run[i].w.done
  {
    assert StepAt(env, interp, run, j);
    StepDone(env, interp, run[j - 1], run[j]);
    if i < j - 1 {
      NotOfferedAgain(env, interp, run, i, j - 1);
    } else {
      RunInv(env, interp, run, i);
    }
  }
}
