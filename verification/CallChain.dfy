/** The native walk against the stack it walks (bpf/unwind_common.h): activations as they
    lie in memory, stated on addresses, and the record and flags the walk leaves of them. */
module CallChain {
  import opened Machine
  import opened Unwind
  import opened Handoff
  import opened Transparency

  const WORD: int := 0x1_0000_0000_0000_0000

  // ----- What is on the stack.

  /** One call in progress. Its cfa, where its caller's stack pointer stood, matters only
      where an unwind row describes it. */
  datatype Activation = Activation(pc: uint64, fp: uint64, sp: uint64, cfa: uint64)

  ghost predicate Covers(env: Env, pc: uint64, row: CfiRow) {
    env.mapping(pc).Some? && env.row(env.mapping(pc).value.tableId, env.mapping(pc).value.relPc) == Some(row)
  }

  ghost predicate Covered(env: Env, pc: uint64) { exists row :: Covers(env, pc, row) }

  /** Its binary has compiled tables, and no row of them covers it. */
  ghost predicate Gap(env: Env, pc: uint64) {
    !Covered(env, pc) && env.mapping(pc).Some? && env.hasTables(env.mapping(pc).value.tableId)
  }

  /** Memory holds a word at an address, which wraps like any other. */
  ghost predicate Holds(env: Env, address: int, word: uint64) { env.read(address % WORD) == Some(word) }

  ghost predicate Faults(env: Env, address: int) { env.read(address % WORD) == None }

  /** Where a row says the caller's stack pointer stood. */
  ghost predicate Frames(row: CfiRow, a: Activation) {
    a.cfa == ((if row.cfa == CfaFp then a.fp else a.sp) + row.cfaOffset) % WORD
  }

  /** A row describes the call: the return address and the saved frame pointer lie at its
      offsets from the cfa; an untouched frame pointer is still the caller's, a lost one 0. */
  ghost predicate CallsByTable(env: Env, row: CfiRow, callee: Activation, caller: Activation) {
    && Frames(row, callee)
    && row.ra == OffsetCfa && Holds(env, callee.cfa + row.raOffset, caller.pc) && caller.pc != 0
    && (row.fp == OffsetCfa ==> Holds(env, callee.cfa + row.fpOffset, caller.fp))
    && (row.fp == SameValue ==> caller.fp == callee.fp)
    && (row.fp == Undefined || row.fp == InRegister ==> caller.fp == 0)
    && caller.sp == callee.cfa
  }

  /** No row does: the two words at the frame pointer are the caller's, whose own frame lies
      higher, or whose frame pointer is the zero that marks the outermost frame. */
  ghost predicate CallsByPointer(env: Env, callee: Activation, caller: Activation) {
    && callee.fp != 0
    && Holds(env, callee.fp, caller.fp) && Holds(env, callee.fp + 8, caller.pc)
    && caller.sp == (callee.fp + 16) % WORD
    && (callee.fp < caller.fp || (caller.fp == 0 && caller.pc != 0))
  }

  ghost predicate Calls(env: Env, callee: Activation, caller: Activation) {
    || (exists row :: Covers(env, callee.pc, row) && CallsByTable(env, row, callee, caller))
    || (!Covered(env, callee.pc) && CallsByPointer(env, callee, caller))
  }

  /** The frame-pointer chain ended one call below. */
  ghost predicate PastEnd(env: Env, as_: seq<Activation>, i: nat)
    requires i < |as_|
  {
    i > 0 && !Covered(env, as_[i - 1].pc) && as_[i].fp == 0
  }

  /** A stack, innermost call first; nothing is followed past the end of its pointers. */
  ghost predicate Chain(env: Env, as_: seq<Activation>) {
    && as_ != []
    && (forall i :: 0 < i < |as_| ==> Calls(env, as_[i - 1], as_[i]))
    && (forall i :: 0 <= i < |as_| - 1 ==> !PastEnd(env, as_, i))
  }

  /** How a stack ends. */
  datatype End =
    | TableRoot                  // the tables say there is no caller
    | PointerRoot                // both words at the frame pointer are zero
    | Rooted                     // its pointers ended one call below, and no row speaks of it
    | Disputed                   // they did, and a row says there is a caller
    | ZeroReturn                 // the return address reads zero
    | LostPointer                // no row and no frame pointer
    | Backward(ret: uint64)      // the saved frame pointer does not rise
    | Unreadable                 // a word faults, or the return address is in a register

  /** The words a row points to for a caller cannot be read. */
  ghost predicate Unread(env: Env, row: CfiRow, a: Activation) {
    || Faults(env, a.cfa + row.raOffset)
    || (!Holds(env, a.cfa + row.raOffset, 0) && row.fp == OffsetCfa && Faults(env, a.cfa + row.fpOffset))
  }

  ghost predicate EndsByTable(env: Env, row: CfiRow, a: Activation, past: bool, end: End) {
    match end
    case TableRoot => row.ra == Undefined
    case Disputed => row.ra == OffsetCfa && past
    case ZeroReturn => row.ra == OffsetCfa && !past && Frames(row, a) && Holds(env, a.cfa + row.raOffset, 0)
    case Unreadable =>
      || row.ra == SameValue || row.ra == InRegister
      || (row.ra == OffsetCfa && !past && Frames(row, a) && Unread(env, row, a))
    case _ => false
  }

  ghost predicate EndsByPointer(env: Env, a: Activation, past: bool, end: End) {
    match end
    case Rooted => a.fp == 0 && past
    case LostPointer => a.fp == 0 && !past
    case PointerRoot => a.fp != 0 && Holds(env, a.fp, 0) && Holds(env, a.fp + 8, 0)
    case Backward(ret) =>
      a.fp != 0 && Holds(env, a.fp + 8, ret) && exists saved :: 0 < saved <= a.fp && Holds(env, a.fp, saved)
    case Unreadable => a.fp != 0 && (Faults(env, a.fp) || Faults(env, a.fp + 8))
    case _ => false
  }

  ghost predicate Ends(env: Env, a: Activation, past: bool, end: End) {
    || (exists row :: Covers(env, a.pc, row) && EndsByTable(env, row, a, past, end))
    || (!Covered(env, a.pc) && EndsByPointer(env, a, past, end))
  }

  // ----- What the walk should leave of it.

  function Pcs(as_: seq<Activation>, n: nat): (r: seq<Slot>)
    requires n <= |as_|
    ensures |r| == n && forall i :: 0 <= i < n ==> r[i] == Slot(0, as_[i].pc)
  {
    seq(n, i requires 0 <= i < n => Slot(0, as_[i].pc))
  }

  /** What following the first n calls raises. */
  ghost predicate RaisedBy(env: Env, as_: seq<Activation>, n: nat, f: Flag)
    requires n < |as_|
  {
    match f
    case DwarfUsed => exists i :: 0 <= i < n && Covered(env, as_[i].pc)
    case CfiMiss => exists i :: 0 <= i < n && Gap(env, as_[i].pc)
    case FpTerminated => exists i :: 0 < i <= n && PastEnd(env, as_, i)
    case _ => false
  }

  /** What the last activation raises. */
  ghost predicate RaisedAtEnd(env: Env, a: Activation, full: bool, end: End, f: Flag) {
    match f
    case CfiMiss => Gap(env, a.pc)
    case FpTerminated => end == PointerRoot
    case RaUndefined => end == TableRoot
    case RootDisagreement => end == Disputed
    case RaZero => end == ZeroReturn
    case FpExhausted => end == LostPointer
    case FpNonmonotonic => end.Backward?
    case FramePushRefused => full && end.Backward? && end.ret != 0
    case DwarfUsed => false
  }

  /** The first n activations are recorded and the walk stands on the next. */
  ghost predicate StandsAt(env: Env, as_: seq<Activation>, n: nat, w: Walk)
    requires n < |as_|
  {
    && (w.pc, w.fp, w.sp) == (as_[n].pc, as_[n].fp, as_[n].sp)
    && w.slots == Pcs(as_, n)
    && (forall f :: f in w.flags <==> RaisedBy(env, as_, n, f))
  }

  lemma RowCovers(env: Env, pc: uint64)
    ensures RowFor(env, pc).Some? <==> Covered(env, pc)
    ensures RowFor(env, pc).Some? ==> forall row :: Covers(env, pc, row) <==> row == RowFor(env, pc).value
    ensures Misses(env, pc) <==> Gap(env, pc)
  {
    if RowFor(env, pc).Some? {
      assert Covers(env, pc, RowFor(env, pc).value);
    }
  }

  // ----- One decision.

  lemma AddsWord(a: int, b: int)
    ensures Add64(a, b) == (a + b) % WORD
  {
  }

  lemma TableCall(env: Env, row: CfiRow, callee: Activation, caller: Activation)
    requires CallsByTable(env, row, callee, caller)
    ensures TableStep(env, row, callee.fp, callee.sp, false)
      == Outcome({DwarfUsed}, Some((caller.pc, caller.fp, caller.sp)), None)
  {
  }

  lemma PointerCall(env: Env, callee: Activation, caller: Activation)
    requires CallsByPointer(env, callee, caller)
    ensures FramePointerStep(env, callee.fp, false)
      == Outcome(if caller.fp == 0 then {FpTerminated} else {}, Some((caller.pc, caller.fp, caller.sp)), None)
  {
    assert callee.fp % WORD == callee.fp;
  }

  /** Standing on a callee leads to its caller. */
  lemma CallDecides(env: Env, callee: Activation, caller: Activation)
    requires Calls(env, callee, caller)
    ensures var o := Decide(env, callee.pc, callee.fp, callee.sp, false);
      && o.caller == Some((caller.pc, caller.fp, caller.sp))
      && (forall f :: f in o.raises <==>
            || (f == DwarfUsed && Covered(env, callee.pc))
            || (f == CfiMiss && Gap(env, callee.pc))
            || (f == FpTerminated && !Covered(env, callee.pc) && caller.fp == 0))
  {
    RowCovers(env, callee.pc);
    if Covered(env, callee.pc) {
      var row :| Covers(env, callee.pc, row) && CallsByTable(env, row, callee, caller);
      TableCall(env, row, callee, caller);
    } else {
      PointerCall(env, callee, caller);
    }
  }

  ghost predicate StopsAs(env: Env, a: Activation, end: End, o: Outcome) {
    && o.caller.None?
    && o.extra == (if end.Backward? && end.ret != 0 then Some(end.ret) else None)
    && (forall f :: f in o.raises <==> f != CfiMiss && RaisedAtEnd(env, a, false, end, f))
  }

  lemma TableEnd(env: Env, row: CfiRow, a: Activation, past: bool, end: End)
    requires EndsByTable(env, row, a, past, end)
    ensures StopsAs(env, a, end, TableStep(env, row, a.fp, a.sp, past))
  {
  }

  lemma PointerEnd(env: Env, a: Activation, past: bool, end: End)
    requires EndsByPointer(env, a, past, end)
    ensures StopsAs(env, a, end, FramePointerStep(env, a.fp, past))
  {
    assert a.fp % WORD == a.fp;
  }

  /** Standing on the last activation stops the walk, for its own reason. */
  lemma EndDecides(env: Env, a: Activation, past: bool, end: End)
    requires Ends(env, a, past, end)
    ensures var o := Decide(env, a.pc, a.fp, a.sp, past);
      && StopsAs(env, a, end, o.(raises := o.raises - {CfiMiss}))
      && (CfiMiss in o.raises <==> Gap(env, a.pc))
  {
    RowCovers(env, a.pc);
    if Covered(env, a.pc) {
      var row :| Covers(env, a.pc, row) && EndsByTable(env, row, a, past, end);
      TableEnd(env, row, a, past, end);
    } else {
      PointerEnd(env, a, past, end);
    }
  }

  // ----- The whole walk.

  lemma EndedIff(env: Env, as_: seq<Activation>, n: nat, w: Walk)
    requires Chain(env, as_) && n < |as_| && StandsAt(env, as_, n, w)
    ensures FpChainEnded(w) <==> PastEnd(env, as_, n)
  {
    assert FpTerminated in w.flags <==> RaisedBy(env, as_, n, FpTerminated);
  }

  lemma FlagsFollow(env: Env, as_: seq<Activation>, n: nat, w: Walk, o: Outcome)
    requires Chain(env, as_) && n + 1 < |as_| && StandsAt(env, as_, n, w)
    requires o == Decide(env, as_[n].pc, as_[n].fp, as_[n].sp, false)
    ensures forall f :: f in w.flags + o.raises <==> RaisedBy(env, as_, n + 1, f)
  {
    CallDecides(env, as_[n], as_[n + 1]);
    assert PastEnd(env, as_, n + 1) <==> !Covered(env, as_[n].pc) && as_[n + 1].fp == 0;
    forall f ensures f in w.flags + o.raises <==> RaisedBy(env, as_, n + 1, f) {
      RaisedNext(env, as_, n, f);
    }
  }

  lemma RaisedNext(env: Env, as_: seq<Activation>, n: nat, f: Flag)
    requires n + 1 < |as_|
    ensures RaisedBy(env, as_, n + 1, f) <==>
      || RaisedBy(env, as_, n, f)
      || (f == DwarfUsed && Covered(env, as_[n].pc))
      || (f == CfiMiss && Gap(env, as_[n].pc))
      || (f == FpTerminated && PastEnd(env, as_, n + 1))
  {
  }

  lemma FollowsCall(env: Env, as_: seq<Activation>, n: nat, w: Walk)
    requires Chain(env, as_) && n + 1 < |as_| && n < 127 && StandsAt(env, as_, n, w)
    ensures var (r, stop) := LeadFrame(env, false, w); !stop && StandsAt(env, as_, n + 1, r)
  {
    EndedIff(env, as_, n, w);
    var o := Decide(env, w.pc, w.fp, w.sp, false);
    CallDecides(env, as_[n], as_[n + 1]);
    FlagsFollow(env, as_, n, w, o);
    assert Pcs(as_, n + 1) == Pcs(as_, n) + [Slot(0, as_[n].pc)];
  }

  lemma {:induction false} FollowsChain(env: Env, as_: seq<Activation>, w0: Walk, n: nat)
    requires Chain(env, as_) && n < |as_| && n <= 127 && w0 == Begin(as_[0].pc, as_[0].fp, as_[0].sp)
    ensures !PlainStates(env, w0, n).1 && StandsAt(env, as_, n, Last(PlainStates(env, w0, n).0))
  {
    if n > 0 {
      FollowsChain(env, as_, w0, n - 1);
      PlainStatesNext(env, w0, n - 1);
      FollowsCall(env, as_, n - 1, Last(PlainStates(env, w0, n - 1).0));
    }
  }

  /** The record and the flags of a stack that ends within 127 frames. */
  ghost predicate Recorded(env: Env, as_: seq<Activation>, end: End, w: Walk)
    requires as_ != [] && |as_| <= 127
  {
    var n := |as_|;
    && w.slots == Pcs(as_, n) + (if end.Backward? && end.ret != 0 && n < 127 then [Slot(0, end.ret)] else [])
    && (forall f :: f in w.flags <==>
          RaisedBy(env, as_, n - 1, f) || RaisedAtEnd(env, as_[n - 1], n == 127, end, f))
  }

  /** A frame that leads nowhere is recorded, with the return address worth recording after
      it if there is room. */
  lemma LeadStops(env: Env, w: Walk, o: Outcome)
    requires |w.slots| < 127 && o == Decide(env, w.pc, w.fp, w.sp, FpChainEnded(w)) && o.caller.None?
    ensures var (r, stop) := LeadFrame(env, false, w);
      && stop
      && r.slots == w.slots + [Slot(0, w.pc)]
         + (if o.extra.Some? && |w.slots| < 126 then [Slot(0, o.extra.value)] else [])
      && r.flags == w.flags + o.raises
         + if o.extra.Some? && |w.slots| == 126 then {FramePushRefused} else {}
  {
  }

  lemma FlagsAtEnd(env: Env, as_: seq<Activation>, end: End, w: Walk, o: Outcome, r: Walk)
    requires as_ != [] && |as_| <= 127 && StandsAt(env, as_, |as_| - 1, w)
    requires var a := as_[|as_| - 1];
      && StopsAs(env, a, end, o.(raises := o.raises - {CfiMiss})) && (CfiMiss in o.raises <==> Gap(env, a.pc))
    requires r.flags == w.flags + o.raises
      + if o.extra.Some? && |as_| == 127 then {FramePushRefused} else {}
    ensures forall f :: f in r.flags <==>
      RaisedBy(env, as_, |as_| - 1, f) || RaisedAtEnd(env, as_[|as_| - 1], |as_| == 127, end, f)
  {
    var a := as_[|as_| - 1];
    forall f ensures f in r.flags <==>
      RaisedBy(env, as_, |as_| - 1, f) || RaisedAtEnd(env, a, |as_| == 127, end, f)
    {
      assert f in w.flags <==> RaisedBy(env, as_, |as_| - 1, f);
      assert f in o.raises - {CfiMiss} <==> f != CfiMiss && RaisedAtEnd(env, a, false, end, f);
    }
  }

  lemma StopsAtEnd(env: Env, as_: seq<Activation>, end: End, w: Walk)
    requires Chain(env, as_) && |as_| <= 127 && StandsAt(env, as_, |as_| - 1, w)
    requires Ends(env, as_[|as_| - 1], PastEnd(env, as_, |as_| - 1), end)
    ensures var (r, stop) := LeadFrame(env, false, w); stop && Recorded(env, as_, end, r)
  {
    var n := |as_| - 1;
    EndedIff(env, as_, n, w);
    EndDecides(env, as_[n], PastEnd(env, as_, n), end);
    var o := Decide(env, w.pc, w.fp, w.sp, FpChainEnded(w));
    LeadStops(env, w, o);
    FlagsAtEnd(env, as_, end, w, o, LeadFrame(env, false, w).0);
    assert Pcs(as_, n + 1) == Pcs(as_, n) + [Slot(0, as_[n].pc)];
  }

  /** The walk recovers the stack it walks, whatever memory and tables hold: of any chain of
      activations it records the instruction pointers in order, all of them if there are at
      most 127 and the first 127 otherwise; it stops exactly where the chain does, and its
      flags say exactly how. */
  lemma WalkExact(env: Env, as_: seq<Activation>, end: End)
    requires Chain(env, as_)
    requires |as_| <= 127 ==> Ends(env, as_[|as_| - 1], PastEnd(env, as_, |as_| - 1), end)
    ensures var w := NativeOnly(env, Begin(as_[0].pc, as_[0].fp, as_[0].sp));
      if |as_| <= 127 then Recorded(env, as_, end, w)
      else w.slots == Pcs(as_, 127) && forall f :: f in w.flags <==> RaisedBy(env, as_, 127, f)
  {
    var w0 := Begin(as_[0].pc, as_[0].fp, as_[0].sp);
    if |as_| > 127 {
      FollowsChain(env, as_, w0, 127);
    } else {
      WalkEnds(env, as_, end, w0);
    }
  }

  lemma WalkEnds(env: Env, as_: seq<Activation>, end: End, w0: Walk)
    requires Chain(env, as_) && |as_| <= 127 && w0 == Begin(as_[0].pc, as_[0].fp, as_[0].sp)
    requires Ends(env, as_[|as_| - 1], PastEnd(env, as_, |as_| - 1), end)
    ensures Recorded(env, as_, end, NativeOnly(env, w0))
  {
    var n := |as_| - 1;
    FollowsChain(env, as_, w0, n);
    PlainStatesNext(env, w0, n);
    StopsAtEnd(env, as_, end, Last(PlainStates(env, w0, n).0));
    PlainStopped(env, w0, n + 1, MAX_FRAMES);
  }

  // ----- Every walk has its stack.

  /** An activation whose cfa is where the row that covers it, if any, says it is. */
  ghost predicate Framed(env: Env, a: Activation) { forall row :: Covers(env, a.pc, row) ==> Frames(row, a) }

  lemma Frame(env: Env, pc: uint64, fp: uint64, sp: uint64) returns (a: Activation)
    ensures (a.pc, a.fp, a.sp) == (pc, fp, sp) && Framed(env, a)
  {
    a := Activation(pc, fp, sp, 0);
    if row :| Covers(env, pc, row) {
      a := a.(cfa := ((if row.cfa == CfaFp then fp else sp) + row.cfaOffset) % WORD);
    }
  }

  lemma NextByTable(env: Env, row: CfiRow, a: Activation, past: bool) returns (next: Option<Activation>, end: End)
    requires Covers(env, a.pc, row) && Frames(row, a)
    ensures if next.Some? then !past && CallsByTable(env, row, a, next.value) && Framed(env, next.value)
      else EndsByTable(env, row, a, past, end)
  {
    next, end := None, Unreadable;
    if row.ra == Undefined {
      end := TableRoot;
    } else if row.ra == OffsetCfa {
      if past {
        end := Disputed;
      } else if Holds(env, a.cfa + row.raOffset, 0) {
        end := ZeroReturn;
      } else if !Unread(env, row, a) {
        var ret := env.read((a.cfa + row.raOffset) % WORD).value;
        var fp := if row.fp == OffsetCfa then env.read((a.cfa + row.fpOffset) % WORD).value
          else if row.fp == SameValue then a.fp else 0;
        var caller := Frame(env, ret, fp, a.cfa);
        next := Some(caller);
      }
    }
  }

  lemma NextByPointer(env: Env, a: Activation, past: bool) returns (next: Option<Activation>, end: End)
    requires past ==> a.fp == 0
    ensures if next.Some? then !past && CallsByPointer(env, a, next.value) && Framed(env, next.value)
      else EndsByPointer(env, a, past, end)
  {
    next, end := None, Unreadable;
    if a.fp == 0 {
      end := if past then Rooted else LostPointer;
    } else if !Faults(env, a.fp) && !Faults(env, a.fp + 8) {
      var saved, ret := env.read(a.fp % WORD).value, env.read((a.fp + 8) % WORD).value;
      assert Holds(env, a.fp, saved) && Holds(env, a.fp + 8, ret);
      if saved == 0 && ret == 0 {
        end := PointerRoot;
      } else if 0 < saved <= a.fp {
        end := Backward(ret);
      } else {
        var caller := Frame(env, ret, saved, (a.fp + 16) % WORD);
        next := Some(caller);
      }
    }
  }

  lemma NextOrEnd(env: Env, a: Activation, past: bool) returns (next: Option<Activation>, end: End)
    requires Framed(env, a) && (past ==> a.fp == 0)
    ensures if next.Some? then !past && Calls(env, a, next.value) && Framed(env, next.value)
      else Ends(env, a, past, end)
  {
    if row :| Covers(env, a.pc, row) {
      next, end := NextByTable(env, row, a, past);
    } else {
      next, end := NextByPointer(env, a, past);
    }
  }

  lemma ChainMore(env: Env, begun: seq<Activation>, next: Activation)
    requires Chain(env, begun) && !PastEnd(env, begun, |begun| - 1) && Calls(env, begun[|begun| - 1], next)
    ensures Chain(env, begun + [next])
  {
    var more := begun + [next];
    forall i | 0 < i < |more| ensures Calls(env, more[i - 1], more[i]) {
      if i < |begun| {
        assert Calls(env, begun[i - 1], begun[i]);
      }
    }
    forall i | 0 <= i < |more| - 1 ensures !PastEnd(env, more, i) {
      assert PastEnd(env, more, i) <==> PastEnd(env, begun, i);
    }
  }

  lemma {:induction false} Continue(env: Env, begun: seq<Activation>) returns (as_: seq<Activation>, end: End)
    requires Chain(env, begun) && |begun| <= 128 && Framed(env, begun[|begun| - 1])
    ensures Chain(env, as_) && as_[0] == begun[0]
    ensures |as_| <= 127 ==> Ends(env, as_[|as_| - 1], PastEnd(env, as_, |as_| - 1), end)
    decreases 128 - |begun|
  {
    as_, end := begun, Unreadable;
    if |begun| < 128 {
      var n := |begun| - 1;
      var next;
      next, end := NextOrEnd(env, begun[n], PastEnd(env, begun, n));
      if next.Some? {
        ChainMore(env, begun, next.value);
        as_, end := Continue(env, begun + [next.value]);
      }
    }
  }

  /** Whatever memory and tables hold, there is a stack to be walked from any start: so the
      walk always records one, and nothing else. */
  lemma StackExists(env: Env, pc: uint64, fp: uint64, sp: uint64) returns (as_: seq<Activation>, end: End)
    ensures Chain(env, as_) && (as_[0].pc, as_[0].fp, as_[0].sp) == (pc, fp, sp)
    ensures |as_| <= 127 ==> Ends(env, as_[|as_| - 1], PastEnd(env, as_, |as_| - 1), end)
  {
    var a := Frame(env, pc, fp, sp);
    as_, end := Continue(env, [a]);
  }
}
