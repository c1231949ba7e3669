/** Handing frames to another unwinder changes nothing about the native walk
    (bpf/unwind_common.h, bpf/unwind_record.h). */
module Transparency {
  import opened Machine
  import opened Unwind
  import opened Handoff

  // ----- The same walk with handoffs compiled out.

  /** The states the walk passes through in at most n iterations, and whether it stopped. */
  function PlainStates(env: Env, w: Walk, n: nat): (r: (seq<Walk>, bool))
    ensures 1 <= |r.0| <= n + 1 && r.0[0] == w
  {
    if n == 0 then ([w], false)
    else
      var (vs, stopped) := PlainStates(env, w, n - 1);
      if stopped then (vs, true)
      else
        var (v, stop) := LeadFrame(env, false, vs[|vs| - 1]);
        (vs + [v], stop)
  }

  function Last(vs: seq<Walk>): Walk
    requires vs != []
  {
    vs[|vs| - 1]
  }

  /** The record it ends with: the loop's MAX_FRAMES iterations. */
  function NativeOnly(env: Env, w: Walk): Walk { Last(PlainStates(env, w, MAX_FRAMES).0) }

  /** A record of native frames alone: its slots are its instruction pointers. */
  predicate AllNative(w: Walk) { Intact(w) && |Natives(w.slots)| == |w.slots| }

  /** The i-th iteration; only the last one of a stopped walk stops. */
  ghost predicate PlainAt(env: Env, vs: seq<Walk>, stopped: bool, i: int)
    requires 0 < i < |vs|
  {
    LeadFrame(env, false, vs[i - 1]) == (vs[i], stopped && i == |vs| - 1)
  }

  /** While the walk has not stopped, i iterations have recorded exactly i frames. */
  ghost predicate StateAt(vs: seq<Walk>, stopped: bool, i: int)
    requires 0 <= i < |vs|
  {
    && AllNative(vs[i])
    && (i < |vs| - 1 || !stopped ==> |vs[i].slots| == i)
    && Natives(vs[i].slots) <= Natives(Last(vs).slots)
  }

  ghost predicate IsPlain(env: Env, vs: seq<Walk>, stopped: bool) {
    && vs != []
    && (stopped ==> |vs| >= 2)
    && (forall i :: 0 < i < |vs| ==> PlainAt(env, vs, stopped, i))
    && (forall i :: 0 <= i < |vs| ==> StateAt(vs, stopped, i))
  }

  lemma AllNativePush(w: Walk, pc: uint64)
    requires AllNative(w)
    ensures AllNative(PushNative(w, pc))
  {
    PushIntact(w, pc);
  }

  lemma LeadNative(env: Env, v: Walk)
    requires AllNative(v)
    ensures var (r, stop) := LeadFrame(env, false, v);
      && AllNative(r)
      && (!stop ==> |r.slots| == |v.slots| + 1)
      && Natives(v.slots) <= Natives(r.slots)
  {
    LeadIntact(env, false, v);
    AllNativePush(v, v.pc);
    var p := PushNative(v, v.pc);
    var o := Decide(env, p.pc, p.fp, p.sp, FpChainEnded(p));
    if o.caller.None? && o.extra.Some? {
      AllNativePush(p.(flags := p.flags + o.raises), o.extra.value);
    }
  }

  lemma PlainExtends(env: Env, vs: seq<Walk>)
    requires IsPlain(env, vs, false)
    ensures var (v, stop) := LeadFrame(env, false, Last(vs)); IsPlain(env, vs + [v], stop)
  {
    var (v, stop) := LeadFrame(env, false, Last(vs));
    var r := vs + [v];
    assert StateAt(vs, false, |vs| - 1);
    LeadNative(env, Last(vs));
    forall i | 0 < i < |r| ensures PlainAt(env, r, stop, i) {
      if i < |vs| {
        assert PlainAt(env, vs, false, i);
      }
    }
    forall i | 0 <= i < |r| ensures StateAt(r, stop, i) {
      if i < |vs| {
        assert StateAt(vs, false, i);
      }
    }
  }

  lemma PlainStatesStep(env: Env, w: Walk, n: nat)
    ensures var (vs, stopped) := PlainStates(env, w, n);
      PlainStates(env, w, n + 1)
      == if stopped then (vs, true)
         else (vs + [LeadFrame(env, false, Last(vs)).0], LeadFrame(env, false, Last(vs)).1)
  {
  }

  lemma {:induction false} PlainStatesPlain(env: Env, w: Walk, n: nat)
    requires w.slots == []
    ensures var (vs, stopped) := PlainStates(env, w, n);
      IsPlain(env, vs, stopped) && (!stopped ==> |vs| == n + 1)
  {
    if n == 0 {
      assert StateAt([w], false, 0);
    } else {
      PlainStatesPlain(env, w, n - 1);
      var (vs, stopped) := PlainStates(env, w, n - 1);
      PlainStatesStep(env, w, n - 1);
      if !stopped {
        PlainExtends(env, vs);
      }
    }
  }

  lemma PlainStatesNext(env: Env, w: Walk, n: nat)
    requires !PlainStates(env, w, n).1
    ensures Last(PlainStates(env, w, n + 1).0) == LeadFrame(env, false, Last(PlainStates(env, w, n).0)).0
    ensures PlainStates(env, w, n + 1).1 == LeadFrame(env, false, Last(PlainStates(env, w, n).0)).1
  {
  }

  lemma {:induction false} PlainStopped(env: Env, w: Walk, n: nat, m: nat)
    requires n <= m && PlainStates(env, w, n).1
    ensures PlainStates(env, w, m) == PlainStates(env, w, n)
  {
    if n < m {
      PlainStopped(env, w, n, m - 1);
      PlainStatesStep(env, w, m - 1);
    }
  }

  /** The loop as it runs, in place: whatever the scratch held, the walk without handoffs
      leaves the reference record. */
  method WalkInPlace(env: Env, ctx: WalkCtx)
    requires ctx.Valid()
    modifies ctx, ctx.rec, ctx.rec.pcs, ctx.rec.tags
    ensures ctx.Valid() && ctx.View() == NativeOnly(env, old(ctx.View()))
  {
    ghost var w0 := ctx.View();
    for i := 0 to MAX_FRAMES
      invariant ctx.Valid()
      invariant !PlainStates(env, w0, i).1 && ctx.View() == Last(PlainStates(env, w0, i).0)
    {
      var stop := ctx.UnwindFrame(env, false, true);
      PlainStatesNext(env, w0, i);
      if stop {
        PlainStopped(env, w0, i + 1, MAX_FRAMES);
        return;
      }
    }
  }

  // ----- The simulation.

  /** Two walks standing on the same frame with the same registers. */
  predicate SamePlace(w: Walk, v: Walk) {
    w.pc == v.pc && w.fp == v.fp && w.sp == v.sp && FpChainEnded(w) == FpChainEnded(v)
  }

  lemma NativesFit(slots: seq<Slot>)
    ensures |Natives(slots)| <= |slots|
    decreases |slots|
  {
    if slots != [] && slots[0].tag == TAG_NATIVE {
      NativesFit(slots[1..]);
      assert Split(slots).0[1..] == Split(slots[1..]).0;
    } else if |slots| >= 2 {
      NativesFit(slots[2..]);
      assert Split(slots).0[1..] == Split(slots[2..]).0;
    }
  }

  /** Moving past a frame is the same decision in both walks; only the room left can differ. */
  lemma AdvanceSame(env: Env, w: Walk, v: Walk)
    requires Intact(w) && AllNative(v) && SamePlace(w, v) && Natives(w.slots) == Natives(v.slots)
    ensures var (w', sw) := Advance(env, w);
      var (v', sv) := Advance(env, v);
      && sw == sv
      && (!sw ==> SamePlace(w', v') && w'.slots == w.slots && v'.slots == v.slots)
      && Natives(w'.slots) <= Natives(v'.slots)
      && (Natives(w'.slots) == Natives(v'.slots) || |w'.slots| == 127)
  {
    NativesFit(w.slots);
    var o := Decide(env, w.pc, w.fp, w.sp, FpChainEnded(w));
    if o.caller.None? && o.extra.Some? {
      PushIntact(w.(flags := w.flags + o.raises), o.extra.value);
      PushIntact(v.(flags := v.flags + o.raises), o.extra.value);
    }
  }

  /** A complete walk without handoffs, to hold others against. */
  ghost predicate Reference(env: Env, vs: seq<Walk>, stopped: bool) {
    IsPlain(env, vs, stopped) && |vs| <= MAX_FRAMES + 1 && (!stopped ==> |vs| == MAX_FRAMES + 1)
  }

  /** The frame the walk stands on is not in the record yet. */
  ghost predicate BeforeFrame(vs: seq<Walk>, w: Walk) {
    var n := |Natives(w.slots)|;
    if n < |vs| - 1 then SamePlace(w, vs[n]) && Natives(w.slots) == Natives(vs[n].slots)
    else n >= MAX_FRAMES
  }

  /** It is, and has not been unwound past. */
  ghost predicate OnFrame(vs: seq<Walk>, w: Walk) {
    var n := |Natives(w.slots)| - 1;
    0 <= n < |vs| - 1 && SamePlace(w, vs[n]) && Natives(w.slots) == Natives(vs[n].slots) + [w.pc]
  }

  /** Where a sample with handoffs stands relative to the walk without them. */
  ghost predicate Tracks(vs: seq<Walk>, s: Sample) {
    && vs != []
    && Natives(s.w.slots) <= Natives(Last(vs).slots)
    && (Active(s) ==>
          if s.phase.Walking? || s.phase == Rewalking then BeforeFrame(vs, s.w) else OnFrame(vs, s.w))
  }

  /** What the reference walk does with the frame a walk stands on. */
  lemma ReferenceNext(env: Env, vs: seq<Walk>, stopped: bool, n: nat)
    requires Reference(env, vs, stopped) && n < |vs| - 1
    ensures
      var p := PushNative(vs[n], vs[n].pc);
      && AllNative(p) && SamePlace(vs[n], p)
      && Natives(p.slots) == Natives(vs[n].slots) + [vs[n].pc]
      && Advance(env, p) == (vs[n + 1], stopped && n + 1 == |vs| - 1)
      && Natives(p.slots) <= Natives(vs[n + 1].slots) <= Natives(Last(vs).slots)
  {
    assert StateAt(vs, stopped, n) && StateAt(vs, stopped, n + 1) && PlainAt(env, vs, stopped, n + 1);
    PushIntact(vs[n], vs[n].pc);
    AdvanceIntact(env, PushNative(vs[n], vs[n].pc));
  }

  /** Everything the reference walk recorded is there, or the record is full. */
  ghost predicate Complete(vs: seq<Walk>, w: Walk) {
    vs != [] && (Natives(w.slots) == Natives(Last(vs).slots) || |w.slots| == 127)
  }

  /** Unwinding past a recorded frame, in the loop or in the resume step. */
  lemma PastFrame(env: Env, vs: seq<Walk>, stopped: bool, w: Walk)
    requires Reference(env, vs, stopped) && Intact(w) && OnFrame(vs, w)
    ensures var (r, stop) := Advance(env, w);
      && (if stop then Complete(vs, r) else BeforeFrame(vs, r))
      && Natives(w.slots) <= Natives(Last(vs).slots) && Natives(r.slots) <= Natives(Last(vs).slots)
  {
    var n := |Natives(w.slots)| - 1;
    NativesFit(w.slots);
    ReferenceNext(env, vs, stopped, n);
    var p := PushNative(vs[n], vs[n].pc);
    AdvanceSame(env, w, p);
  }

  lemma PushOnFrame(env: Env, vs: seq<Walk>, stopped: bool, w: Walk)
    requires Reference(env, vs, stopped) && Intact(w) && BeforeFrame(vs, w) && |w.slots| < MAX_FRAMES
    ensures OnFrame(vs, PushNative(w, w.pc)) && Intact(PushNative(w, w.pc))
  {
    PushIntact(w, w.pc);
    NativesFit(w.slots);
  }

  lemma LeadTracks(env: Env, interp: bool, vs: seq<Walk>, stopped: bool, w: Walk)
    requires Reference(env, vs, stopped) && Intact(w) && BeforeFrame(vs, w)
    requires Natives(w.slots) <= Natives(Last(vs).slots) && w.pending == UNWINDER_NATIVE
    ensures var (r, stop) := LeadFrame(env, interp, w);
      && Natives(r.slots) <= Natives(Last(vs).slots)
      && (!stop ==> BeforeFrame(vs, r) && |r.slots| == |w.slots| + 1)
      && (stop && r.pending != UNWINDER_NATIVE ==> OnFrame(vs, r))
      && (stop && r.pending == UNWINDER_NATIVE ==> Complete(vs, r))
  {
    if |w.slots| < MAX_FRAMES {
      PushOnFrame(env, vs, stopped, w);
      var p := PushNative(w, w.pc);
      PastFrame(env, vs, stopped, p);
      AdvanceEnding(env, p);
    }
  }

  lemma ModuleTracks(vs: seq<Walk>, s: Sample, t: Sample)
    requires Intact(s.w) && Tracks(vs, s) && ModuleStep(s, t)
    ensures Tracks(vs, t)
  {
    ModuleIntact(s, t);
    assert FpTerminated in t.w.flags <==> FpTerminated in t.w.flags - {FramePushRefused};
    assert FpTerminated in s.w.flags <==> FpTerminated in s.w.flags - {FramePushRefused};
  }

  lemma WalkTracks(env: Env, interp: bool, vs: seq<Walk>, stopped: bool, s: Sample, t: Sample)
    requires Reference(env, vs, stopped)
    requires Inv(interp, s) && Tracks(vs, s) && WalkStep(env, interp, s, t)
    ensures Tracks(vs, t)
  {
    LeadTracks(env, interp, vs, stopped, s.w);
    LeadOneEnding(env, interp, s.w);
  }

  lemma ResumeTracks(env: Env, vs: seq<Walk>, stopped: bool, s: Sample, t: Sample)
    requires Reference(env, vs, stopped)
    requires Intact(s.w) && Tracks(vs, s) && ResumeStep(env, s, t)
    ensures Tracks(vs, t)
  {
    if s.phase == Resuming {
      PastFrame(env, vs, stopped, s.w);
    }
  }

  lemma StepTracks(env: Env, interp: bool, vs: seq<Walk>, stopped: bool, s: Sample, t: Sample)
    requires Reference(env, vs, stopped)
    requires Inv(interp, s) && Tracks(vs, s) && Next(env, interp, s, t)
    ensures Tracks(vs, t)
  {
    if WalkStep(env, interp, s, t) {
      WalkTracks(env, interp, vs, stopped, s, t);
    } else if ModuleStep(s, t) {
      ModuleTracks(vs, s, t);
    } else if ResumeStep(env, s, t) {
      ResumeTracks(env, vs, stopped, s, t);
    }
  }

  lemma {:induction false} RunTracks(env: Env, interp: bool, vs: seq<Walk>, stopped: bool, run: seq<Sample>, i: nat)
    requires IsRun(env, interp, run) && i < |run|
    requires Reference(env, vs, stopped) && |vs| >= 2 && vs[0] == run[0].w
    ensures Tracks(vs, run[i])
  {
    if i == 0 {
      assert StateAt(vs, stopped, 0);
    } else {
      RunTracks(env, interp, vs, stopped, run, i - 1);
      RunInv(env, interp, run, i - 1);
      assert StepAt(env, interp, run, i);
      StepTracks(env, interp, vs, stopped, run[i - 1], run[i]);
    }
  }

  /** Handoff transparency: in every state of every sample, whatever memory and tables hold,
      whatever ranges are claimed and whatever pairs the modules append, the native frames
      recorded so far are a prefix of those the walk records with handoffs compiled out. No
      frame is duplicated, skipped or reordered across stop, resume step and resumed walk. */
  lemma HandoffTransparent(env: Env, interp: bool, run: seq<Sample>, i: nat)
    requires IsRun(env, interp, run) && i < |run|
    ensures Natives(run[i].w.slots) <= Natives(NativeOnly(env, run[0].w).slots)
  {
    PlainStatesPlain(env, run[0].w, MAX_FRAMES);
    var (vs, stopped) := PlainStates(env, run[0].w, MAX_FRAMES);
    RunTracks(env, interp, vs, stopped, run, i);
  }

  // ----- Nothing is missing either.

  /** How many tail calls a sample has made, by where it stands; a loop that ran out filled
      the record; and a walk that stopped of itself recorded what the reference did. */
  ghost predicate Thorough(vs: seq<Walk>, s: Sample) {
    match s.phase
    case Walking(left) => !s.stopped && s.tailCalls == 3 * s.dispatched && left <= 127 <= |s.w.slots| + left
    case LoopDone =>
      !s.stopped && s.tailCalls == 3 * s.dispatched && (s.w.pending == UNWINDER_NATIVE ==> Complete(vs, s.w))
    case InModule => !s.stopped && s.tailCalls == 3 * s.dispatched - 2
    case Resuming => !s.stopped && s.tailCalls == 3 * s.dispatched - 1
    case Rewalking => s.tailCalls == 3 * s.dispatched && (s.stopped ==> Complete(vs, s.w))
    case Finished => s.claimed == s.dispatched && s.tailCalls == 3 * s.dispatched ==> Complete(vs, s.w)
    case Vanished => true
  }

  lemma WalkThorough(env: Env, interp: bool, vs: seq<Walk>, stopped: bool, s: Sample, t: Sample)
    requires Reference(env, vs, stopped) && Inv(interp, s) && Tracks(vs, s) && Thorough(vs, s)
    requires WalkStep(env, interp, s, t)
    ensures Thorough(vs, t)
  {
    if s.phase.left > 0 {
      LeadTracks(env, interp, vs, stopped, s.w);
    }
  }

  lemma StepThorough(env: Env, interp: bool, vs: seq<Walk>, stopped: bool, s: Sample, t: Sample)
    requires Reference(env, vs, stopped) && Inv(interp, s) && Tracks(vs, s) && Thorough(vs, s)
    requires Next(env, interp, s, t)
    ensures Thorough(vs, t)
  {
    if WalkStep(env, interp, s, t) {
      WalkThorough(env, interp, vs, stopped, s, t);
    } else if ResumeStep(env, s, t) {
      ResumeThorough(env, vs, stopped, s, t);
    }
  }

  lemma ResumeThorough(env: Env, vs: seq<Walk>, stopped: bool, s: Sample, t: Sample)
    requires Reference(env, vs, stopped) && Intact(s.w) && Tracks(vs, s) && Thorough(vs, s)
    requires ResumeStep(env, s, t)
    ensures Thorough(vs, t)
  {
    if s.phase == Resuming {
      PastFrame(env, vs, stopped, s.w);
    }
  }

  lemma {:induction false} RunThorough(env: Env, interp: bool, vs: seq<Walk>, stopped: bool, run: seq<Sample>, i: nat)
    requires IsRun(env, interp, run) && i < |run|
    requires Reference(env, vs, stopped) && |vs| >= 2 && vs[0] == run[0].w
    ensures Thorough(vs, run[i])
  {
    if i > 0 {
      RunThorough(env, interp, vs, stopped, run, i - 1);
      RunTracks(env, interp, vs, stopped, run, i - 1);
      RunInv(env, interp, run, i - 1);
      assert StepAt(env, interp, run, i);
      StepThorough(env, interp, vs, stopped, run[i - 1], run[i]);
    }
  }

  /** A sample all of whose claims were dispatched, each taken up and handed back, finishes
      with every native frame the walk records with handoffs compiled out, unless what the
      modules appended filled the record first. */
  lemma HandoffComplete(env: Env, interp: bool, run: seq<Sample>, i: nat)
    requires IsRun(env, interp, run) && i < |run| && run[i].phase == Finished
    requires run[i].claimed == run[i].dispatched && run[i].tailCalls == 3 * run[i].dispatched
    ensures Natives(run[i].w.slots) == Natives(NativeOnly(env, run[0].w).slots) || |run[i].w.slots| == 127
  {
    PlainStatesPlain(env, run[0].w, MAX_FRAMES);
    var (vs, stopped) := PlainStates(env, run[0].w, MAX_FRAMES);
    RunThorough(env, interp, vs, stopped, run, i);
  }

  // ----- The reference is the machine's own behaviour.

  /** A sample with handoffs disabled is somewhere along the reference walk. */
  ghost predicate AlongPlain(vs: seq<Walk>, s: Sample) {
    && vs != []
    && match s.phase
       case Walking(left) => left <= MAX_FRAMES && MAX_FRAMES - left < |vs| && s.w == vs[MAX_FRAMES - left]
                             && (MAX_FRAMES - left == |vs| - 1 ==> left == 0)
       case LoopDone => s.w == Last(vs)
       case Finished => s.w == Last(vs)
       case _ => false
  }

  lemma StepAlongPlain(env: Env, vs: seq<Walk>, stopped: bool, s: Sample, t: Sample)
    requires Reference(env, vs, stopped)
    requires Inv(false, s) && AlongPlain(vs, s) && Next(env, false, s, t)
    ensures AlongPlain(vs, t)
  {
    if s.phase.Walking? && s.phase.left > 0 {
      assert PlainAt(env, vs, stopped, MAX_FRAMES - s.phase.left + 1);
    }
  }

  lemma {:induction false} DisabledAlong(env: Env, vs: seq<Walk>, stopped: bool, run: seq<Sample>, i: nat)
    requires Reference(env, vs, stopped) && IsRun(env, false, run) && i < |run| && vs[0] == run[0].w
    ensures AlongPlain(vs, run[i])
  {
    if i > 0 {
      DisabledAlong(env, vs, stopped, run, i - 1);
      RunInv(env, false, run, i - 1);
      assert StepAt(env, false, run, i);
      StepAlongPlain(env, vs, stopped, run[i - 1], run[i]);
    }
  }

  /** With handoffs disabled the sample finishes with exactly the reference record. */
  lemma DisabledIsPlain(env: Env, run: seq<Sample>, i: nat)
    requires IsRun(env, false, run) && i < |run|
    ensures run[i].phase == Finished ==> run[i].w == NativeOnly(env, run[0].w)
  {
    PlainStatesPlain(env, run[0].w, MAX_FRAMES);
    var (vs, stopped) := PlainStates(env, run[0].w, MAX_FRAMES);
    DisabledAlong(env, vs, stopped, run, i);
  }
}
