/** How the consumer files a finished walk (gpuprobe/consumer.go), against every walk the
    kernel side can produce. */
module WalkVerdict {
  import opened Machine
  import opened Unwind
  import opened Handoff
  import opened Transparency
  import opened CallChain

  /** Counters that say how walks ended. */
  class WalkStats {
    var walked: nat
    var reachedRoot: nat
    var fpExhausted: nat
    var fpNonmonotonic: nat
    var rootDisagreement: nat
    var raZero: nat
    var abandoned: nat
    var truncated: nat

    constructor ()
      ensures walked == reachedRoot == fpExhausted == fpNonmonotonic == 0
      ensures rootDisagreement == raZero == abandoned == truncated == 0
    {
      walked, reachedRoot, fpExhausted, fpNonmonotonic := 0, 0, 0, 0;
      rootDisagreement, raZero, abandoned, truncated := 0, 0, 0, 0;
    }

    /** Files one walk of n recorded slots, under its named cause and under how it ended. */
    method Note(flags: set<Flag>, n: nat)
      modifies this
      ensures walked == old(walked) + 1
      ensures (reachedRoot, fpExhausted, fpNonmonotonic, rootDisagreement, raZero)
        == (old(reachedRoot) + (if RaUndefined in flags then 1 else 0),
            old(fpExhausted) + (if FpExhausted in flags then 1 else 0),
            old(fpNonmonotonic) + (if FpNonmonotonic in flags then 1 else 0),
            old(rootDisagreement) + (if RootDisagreement in flags then 1 else 0),
            old(raZero) + (if RaZero in flags then 1 else 0))
      ensures abandoned == old(abandoned) + if Verdict(flags, n) == Abandoned then 1 else 0
      ensures truncated == old(truncated) + if Verdict(flags, n) == Truncated then 1 else 0
    {
      walked := walked + 1;
      reachedRoot := reachedRoot + Bit(flags, RaUndefined);
      fpExhausted := fpExhausted + Bit(flags, FpExhausted);
      fpNonmonotonic := fpNonmonotonic + Bit(flags, FpNonmonotonic);
      rootDisagreement := rootDisagreement + Bit(flags, RootDisagreement);
      raZero := raZero + Bit(flags, RaZero);
      NoteEnding(flags, n);
    }

    method NoteEnding(flags: set<Flag>, n: nat)
      modifies this`abandoned, this`truncated
      ensures abandoned == old(abandoned) + if Verdict(flags, n) == Abandoned then 1 else 0
      ensures truncated == old(truncated) + if Verdict(flags, n) == Truncated then 1 else 0
    {
      if RootDisagreement in flags {
        abandoned := abandoned + 1;
      } else if FpTerminated in flags || RaUndefined in flags {
        // The chain's own end: neither a failure nor a budget.
      } else if FpExhausted in flags || FpNonmonotonic in flags {
        abandoned := abandoned + 1;
      } else if n == MAX_FRAMES {
        truncated := truncated + 1;
      } else {
        abandoned := abandoned + 1;
      }
    }
  }

  function Bit(flags: set<Flag>, f: Flag): nat { if f in flags then 1 else 0 }

  datatype Ending = Complete | Abandoned | Truncated

  function Verdict(flags: set<Flag>, n: nat): Ending {
    if RootDisagreement in flags then Abandoned
    else if FpTerminated in flags || RaUndefined in flags then Complete
    else if FpExhausted in flags || FpNonmonotonic in flags then Abandoned
    else if n == MAX_FRAMES then Truncated
    else Abandoned
  }

  /** Whatever a sample went through, its walk is filed under the cause it recorded: a
      lost or non-monotonic frame pointer and a disputed root are abandoned, a root
      confirmed by the tables is complete, an undisputed chain end is complete, and a walk
      that recorded no cause is truncated if it filled the record and abandoned otherwise. */
  lemma VerdictHonest(env: Env, interp: bool, run: seq<Sample>, i: nat)
    requires IsRun(env, interp, run) && i < |run|
    ensures var w := run[i].w;
      && ((FpExhausted in w.flags || FpNonmonotonic in w.flags || RootDisagreement in w.flags) ==>
            Verdict(w.flags, |w.slots|) == Abandoned)
      && (RaUndefined in w.flags ==> Verdict(w.flags, |w.slots|) == Complete)
      && (FpTerminated in w.flags ==> (Verdict(w.flags, |w.slots|) == Complete <==> RootDisagreement !in w.flags))
      && (w.flags !! {FpTerminated, RaUndefined, FpExhausted, FpNonmonotonic, RootDisagreement} ==>
            Verdict(w.flags, |w.slots|) == if |w.slots| == 127 then Truncated else Abandoned)
  {
    RunInv(env, interp, run, i);
  }

  /** Named causes never overlap: each finished walk moves at most one of the five named
      counters. */
  lemma CausesDisjoint(env: Env, interp: bool, run: seq<Sample>, i: nat)
    requires IsRun(env, interp, run) && i < |run|
    ensures Endings(run[i].w.flags) <= 1
    ensures RootDisagreement in run[i].w.flags ==> FpTerminated in run[i].w.flags
    ensures FpTerminated in run[i].w.flags ==>
      FpExhausted !in run[i].w.flags && FpNonmonotonic !in run[i].w.flags && RaZero !in run[i].w.flags
  {
    RunInv(env, interp, run, i);
  }

  /** A walk stopped by a zero return address is filed as abandoned exactly when it did
      not also fill the record. */
  lemma RaZeroAbandonedIff(env: Env, interp: bool, run: seq<Sample>, i: nat)
    requires IsRun(env, interp, run) && i < |run| && RaZero in run[i].w.flags
    ensures Verdict(run[i].w.flags, |run[i].w.slots|) == Abandoned <==> |run[i].w.slots| < MAX_FRAMES
  {
    RunInv(env, interp, run, i);
  }

  // ----- Against the stack itself.

  /** How a stack is filed: complete at a root, past the end of its pointers too unless a
      row disputes it; truncated where the record was full and nothing else is known. */
  ghost function Filed(env: Env, as_: seq<Activation>, end: End): Ending
    requires as_ != []
  {
    if |as_| > 127 then (if |as_| == 128 && PastEnd(env, as_, 127) then Complete else Truncated)
    else
      match end
      case TableRoot => Complete
      case PointerRoot => Complete
      case Rooted => Complete
      case Disputed => Abandoned
      case LostPointer => Abandoned
      case Backward(_) => Abandoned
      case ZeroReturn => if |as_| == 127 then Truncated else Abandoned
      case Unreadable =>
        if PastEnd(env, as_, |as_| - 1) then Complete else if |as_| == 127 then Truncated else Abandoned
  }

  lemma PastEndOnly(env: Env, as_: seq<Activation>, n: nat)
    requires Chain(env, as_) && n < |as_|
    ensures RaisedBy(env, as_, n, FpTerminated) <==> n == |as_| - 1 && PastEnd(env, as_, n)
  {
  }

  /** A disputed or rooted end lies past the end of the pointers, a root that the pointers
      themselves mark and a lost pointer do not. */
  lemma EndsPast(env: Env, a: Activation, past: bool, end: End)
    requires Ends(env, a, past, end)
    ensures end == Rooted || end == Disputed ==> past
    ensures end.ZeroReturn? || end.LostPointer? ==> !past
    ensures end.PointerRoot? || end.Backward? || (end.Unreadable? && !Covered(env, a.pc)) ==> a.fp != 0
  {
  }

  /** Every stack is filed by how it ends and how long it is. One of 128 frames whose
      pointers end at the 127th is filed as complete, its last frame not recorded. */
  lemma FiledAsWalked(env: Env, as_: seq<Activation>, end: End)
    requires Chain(env, as_)
    requires |as_| <= 127 ==> Ends(env, as_[|as_| - 1], PastEnd(env, as_, |as_| - 1), end)
    ensures var w := NativeOnly(env, Begin(as_[0].pc, as_[0].fp, as_[0].sp));
      Verdict(w.flags, |w.slots|) == Filed(env, as_, end)
  {
    WalkExact(env, as_, end);
    var n := if |as_| > 127 then 127 else |as_| - 1;
    PastEndOnly(env, as_, n);
    var w := NativeOnly(env, Begin(as_[0].pc, as_[0].fp, as_[0].sp));
    if |as_| <= 127 {
      EndsPast(env, as_[n], PastEnd(env, as_, n), end);
      FiledWithin(env, as_, end, w);
    }
  }

  lemma FiledWithin(env: Env, as_: seq<Activation>, end: End, w: Walk)
    requires as_ != [] && |as_| <= 127 && Recorded(env, as_, end, w)
    requires RaisedBy(env, as_, |as_| - 1, FpTerminated) <==> PastEnd(env, as_, |as_| - 1)
    requires end == Rooted || end == Disputed ==> PastEnd(env, as_, |as_| - 1)
    requires end.ZeroReturn? || end.LostPointer? || end.Backward? ==> !PastEnd(env, as_, |as_| - 1)
    ensures Verdict(w.flags, |w.slots|) == Filed(env, as_, end)
  {
    var n := |as_| - 1;
    forall f ensures f in w.flags <==> RaisedBy(env, as_, n, f) || RaisedAtEnd(env, as_[n], |as_| == 127, end, f) {
    }
  }

  /** Frame pointers 16 bytes apart, the 127th zero, and no tables. */
  function LongStack(): Env {
    Env((a: uint64) => Some(if a % 16 == 8 then 1 else if a < 16 * 127 then a + 16 else 0),
        pc => None, t => false, (t, r) => None, (t, r) => None)
  }

  function LongActivation(i: nat): Activation
    requires i < 128
  {
    Activation(1, if i < 127 then 16 * (i + 1) else 0, 16 * (i + 1), 0)
  }

  lemma LongCalls(i: nat)
    requires 0 < i < 128
    ensures Calls(LongStack(), LongActivation(i - 1), LongActivation(i))
  {
    var fp := 16 * i;
    assert fp % 16 == 0 && (fp + 8) % 16 == 8;
    assert fp % WORD == fp && (fp + 8) % WORD == fp + 8 && (fp + 16) % WORD == fp + 16;
    assert CallsByPointer(LongStack(), LongActivation(i - 1), LongActivation(i));
  }

  ghost predicate CutComplete(env: Env, as_: seq<Activation>) {
    && Chain(env, as_) && |as_| == 128
    && var w := NativeOnly(env, Begin(as_[0].pc, as_[0].fp, as_[0].sp));
      w.slots == Pcs(as_, 127) && Verdict(w.flags, |w.slots|) == Complete
  }

  /** Such a stack exists: 127 of its 128 frames are recorded and it is filed as complete. */
  lemma CutCanReadComplete()
    ensures exists env: Env, as_: seq<Activation> :: CutComplete(env, as_)
  {
    var env, as_ := LongStack(), seq(128, i requires 0 <= i < 128 => LongActivation(i));
    forall i | 0 < i < |as_| ensures Calls(env, as_[i - 1], as_[i]) {
      LongCalls(i);
    }
    assert Chain(env, as_);
    WalkExact(env, as_, Unreadable);
    FiledAsWalked(env, as_, Unreadable);
    assert PastEnd(env, as_, 127);
    assert CutComplete(env, as_);
  }

  // ----- The other half of that condition can be reached.

  /** A stack whose frames are 8 bytes apart, every return address 1, until the 127th. */
  function TallStack(): Env {
    Env(a => if a < 8 * (MAX_FRAMES - 1) then Some(1) else Some(0),
        (pc: uint64) => Some(Mapping(0, pc)),
        t => true,
        (t, r) => Some(CfiRow(CfaSp, 8, SameValue, 0, OffsetCfa, -8)),
        (t, r) => None)
  }

  ghost predicate TallAt(v: Walk, n: nat) {
    |v.slots| == n && v.sp == 8 * n && v.flags <= {DwarfUsed} && v.pc == 1
  }

  ghost predicate Climbs(env: Env, v: Walk, n: nat) {
    var (r, stop) := LeadFrame(env, false, v);
    if n == MAX_FRAMES - 1 then stop && r.flags <= {DwarfUsed, RaZero} && RaZero in r.flags && |r.slots| == MAX_FRAMES
    else !stop && TallAt(r, n + 1)
  }

  lemma TallStep(v: Walk, n: nat)
    requires n < MAX_FRAMES && TallAt(v, n)
    ensures Climbs(TallStack(), v, n)
  {
    assert Add64(8 * n, 8) == 8 * n + 8;
    assert Add64(8 * n + 8, -8) == 8 * n;
  }

  ghost predicate Tall(env: Env) {
    forall v: Walk, n: nat {:trigger Climbs(env, v, n)} :: n < MAX_FRAMES && TallAt(v, n) ==> Climbs(env, v, n)
  }

  lemma {:induction false} TallStates(env: Env, w0: Walk, n: nat)
    requires Tall(env) && w0 == Begin(1, 0, 0) && n < MAX_FRAMES
    ensures !PlainStates(env, w0, n).1 && TallAt(Last(PlainStates(env, w0, n).0), n)
  {
    if n == 0 {
      TallBegins(env, w0);
    } else {
      TallStates(env, w0, n - 1);
      TallNext(env, w0, n - 1, Last(PlainStates(env, w0, n - 1).0));
    }
  }

  lemma TallBegins(env: Env, w0: Walk)
    requires w0 == Begin(1, 0, 0)
    ensures !PlainStates(env, w0, 0).1 && TallAt(Last(PlainStates(env, w0, 0).0), 0)
  {
  }

  lemma TallNext(env: Env, w0: Walk, n: nat, v: Walk)
    requires Tall(env) && n + 1 < MAX_FRAMES && !PlainStates(env, w0, n).1
    requires v == Last(PlainStates(env, w0, n).0) && TallAt(v, n)
    ensures !PlainStates(env, w0, n + 1).1 && TallAt(Last(PlainStates(env, w0, n + 1).0), n + 1)
  {
    ClimbOne(env, v, n);
    PlainStatesNext(env, w0, n);
  }

  lemma ClimbOne(env: Env, v: Walk, n: nat)
    requires Tall(env) && n < MAX_FRAMES - 1 && TallAt(v, n)
    ensures !LeadFrame(env, false, v).1 && TallAt(LeadFrame(env, false, v).0, n + 1)
  {
    assert Climbs(env, v, n);
  }

  lemma TallEnds(env: Env, w0: Walk, n: nat)
    requires Tall(env) && w0 == Begin(1, 0, 0) && n == MAX_FRAMES - 1
    ensures var w := Last(PlainStates(env, w0, n + 1).0);
      RaZero in w.flags && Verdict(w.flags, |w.slots|) == Truncated
  {
    TallStates(env, w0, n);
    PlainStatesNext(env, w0, n);
    assert Climbs(env, Last(PlainStates(env, w0, n).0), n);
  }

  /** A zero return address read on the 127th frame is filed as truncated, not abandoned. */
  lemma RaZeroCanReadTruncated()
    ensures exists env, pc: uint64, fp: uint64, sp: uint64 ::
      var w := NativeOnly(env, Begin(pc, fp, sp));
      RaZero in w.flags && Verdict(w.flags, |w.slots|) == Truncated
  {
    var env, w0 := TallStack(), Begin(1, 0, 0);
    forall v: Walk, n: nat | n < MAX_FRAMES && TallAt(v, n) ensures Climbs(env, v, n) {
      TallStep(v, n);
    }
    TallEnds(env, w0, MAX_FRAMES - 1);
    assert RaZero in NativeOnly(env, Begin(1, 0, 0)).flags;
  }
}
