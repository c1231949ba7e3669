/** The hybrid native stack walker: one frame at a time over arbitrary user memory,
    by unwind tables where a row exists and by frame pointer where none does
    (bpf/unwind_common.h, bpf/unwind_record.h). */
module Unwind {
  import opened Machine

  const MAX_FRAMES: int := 127
  const UNWINDER_NATIVE: uint32 := 0
  const TAG_NATIVE: uint8 := 0

  datatype Flag =
    | FpTerminated | DwarfUsed | CfiMiss | RaUndefined | FpExhausted
    | FpNonmonotonic | RootDisagreement | FramePushRefused | RaZero

  // ----- Everything the walker reads and never writes.

  datatype CfaRule = CfaUndefined | CfaSp | CfaFp
  datatype RegRule = Undefined | OffsetCfa | SameValue | InRegister

  datatype CfiRow = CfiRow(cfa: CfaRule, cfaOffset: int, fp: RegRule, fpOffset: int, ra: RegRule, raOffset: int)

  datatype Mapping = Mapping(tableId: uint64, relPc: uint64)

  /** User memory, the process's mappings, its compiled tables and the text ranges
      other unwinders claim. A read that faults answers None. */
  datatype Env = Env(
    read: uint64 -> Option<uint64>,
    mapping: uint64 -> Option<Mapping>,
    hasTables: uint64 -> bool,
    row: (uint64, uint64) -> Option<CfiRow>,
    claimant: (uint64, uint64) -> Option<uint32>)

  // ----- The record under construction and the registers the walk stands on.

  datatype Slot = Slot(tag: uint8, word: uint64)

  datatype Walk = Walk(pc: uint64, fp: uint64, sp: uint64, slots: seq<Slot>, flags: set<Flag>,
                       pending: uint32, done: set<int>)

  function PushNative(w: Walk, pc: uint64): Walk {
    if |w.slots| >= MAX_FRAMES then w.(flags := w.flags + {FramePushRefused})
    else w.(slots := w.slots + [Slot(TAG_NATIVE, pc)])
  }

  /** A pair lands whole or not at all. */
  function PushPair(w: Walk, tag: uint8, a: uint64, b: uint64): Walk {
    if |w.slots| > MAX_FRAMES - 2 then w.(flags := w.flags + {FramePushRefused})
    else w.(slots := w.slots + [Slot(tag, a), Slot(tag, b)])
  }

  predicate FpChainEnded(w: Walk) { FpTerminated in w.flags }

  // ----- One unwinding decision.

  /** What standing on a frame leads to: the flags it raises, the caller to move to if
      the walk goes on, and a return address still worth recording if it does not. */
  datatype Outcome = Outcome(raises: set<Flag>, caller: Option<(uint64, uint64, uint64)>, extra: Option<uint64>)

  function Stop(raises: set<Flag>): Outcome { Outcome(raises, None, None) }

  function TableStep(env: Env, e: CfiRow, fp: uint64, sp: uint64, ended: bool): Outcome {
    var cfa := Add64(if e.cfa.CfaFp? then fp else sp, e.cfaOffset);
    match e.ra
    case OffsetCfa =>
      if ended then Stop({RootDisagreement})
      else
        var ra := env.read(Add64(cfa, e.raOffset));
        if ra.None? then Stop({})
        else if ra.value == 0 then Stop({RaZero})
        else if e.fp.OffsetCfa? then
          var saved := env.read(Add64(cfa, e.fpOffset));
          if saved.None? then Stop({})
          else Outcome({DwarfUsed}, Some((ra.value, saved.value, cfa)), None)
        else Outcome({DwarfUsed}, Some((ra.value, if e.fp.SameValue? then fp else 0, cfa)), None)
    case Undefined => Stop({RaUndefined})
    case _ => Stop({})
  }

  function FramePointerStep(env: Env, fp: uint64, ended: bool): Outcome {
    if fp == 0 then Stop(if ended then {} else {FpExhausted})
    else
      var saved := env.read(fp);
      var ret := env.read(Add64(fp, 8));
      if saved.None? || ret.None? then Stop({})
      else if saved.value == 0 then
        Outcome({FpTerminated}, if ret.value == 0 then None else Some((ret.value, 0, Add64(fp, 16))), None)
      else if saved.value <= fp then
        Outcome({FpNonmonotonic}, None, if ret.value == 0 then None else Some(ret.value))
      else Outcome({}, Some((ret.value, saved.value, Add64(fp, 16))), None)
  }

  function RowFor(env: Env, pc: uint64): Option<CfiRow> {
    match env.mapping(pc)
    case None => None
    case Some(m) => env.row(m.tableId, m.relPc)
  }

  /** Compiled tables that do not cover this pc. A miss is flagged and does not stop the walk. */
  predicate Misses(env: Env, pc: uint64) {
    RowFor(env, pc).None? && env.mapping(pc).Some? && env.hasTables(env.mapping(pc).value.tableId)
  }

  function Decide(env: Env, pc: uint64, fp: uint64, sp: uint64, ended: bool): Outcome {
    match RowFor(env, pc)
    case Some(e) => TableStep(env, e, fp, sp, ended)
    case None =>
      var o := FramePointerStep(env, fp, ended);
      if Misses(env, pc) then o.(raises := o.raises + {CfiMiss}) else o
  }

  /** Unwinding past a frame already in the record. */
  function Advance(env: Env, w: Walk): (r: (Walk, bool)) {
    var o := Decide(env, w.pc, w.fp, w.sp, FpChainEnded(w));
    var flagged := w.(flags := w.flags + o.raises);
    match o.caller
    case Some((pc, fp, sp)) => (flagged.(pc := pc, fp := fp, sp := sp), false)
    case None =>
      match o.extra
      case Some(ret) => (PushNative(flagged, ret), true)
      case None => (flagged, true)
  }

  /** Who, other than the native walker, claims this pc and still wants frames. */
  function NextUnwinder(env: Env, pc: uint64, done: set<int>): uint32 {
    match env.mapping(pc)
    case None => UNWINDER_NATIVE
    case Some(m) =>
      match env.claimant(m.tableId, m.relPc)
      case None => UNWINDER_NATIVE
      case Some(id) => if id % 32 in done then UNWINDER_NATIVE else id
  }

  /** One leading frame: record it, offer it, then move past it. True means stop. */
  function LeadFrame(env: Env, interp: bool, w: Walk): (Walk, bool) {
    if |w.slots| >= MAX_FRAMES then (PushNative(w, w.pc), true)
    else
      var pushed := PushNative(w, w.pc);
      var u := NextUnwinder(env, w.pc, w.done);
      if interp && u != UNWINDER_NATIVE then (pushed.(pending := u), true)
      else Advance(env, pushed)
  }

  // ----- The walker as it runs: a record in reused per-CPU scratch, a cursor into it.

  class SampleRecord {
    const pcs: array<uint64>
    const tags: array<uint8>
    var flags: set<Flag>

    ghost predicate Valid() {
      pcs.Length == MAX_FRAMES && tags.Length == MAX_FRAMES
    }

    /** The slots below a cursor. Whatever an earlier sample left above it is not part
        of the record. */
    ghost function Slots(n: nat): seq<Slot>
      requires Valid() && n <= MAX_FRAMES
      reads pcs, tags
    {
      seq(n, i requires 0 <= i < n reads pcs, tags => Slot(tags[i], pcs[i]))
    }

    /** Fresh scratch; its contents are whatever was there. */
    constructor (pcs: array<uint64>, tags: array<uint8>)
      requires pcs.Length == MAX_FRAMES && tags.Length == MAX_FRAMES
      ensures Valid() && this.pcs == pcs && this.tags == tags && flags == {}
    {
      this.pcs, this.tags, flags := pcs, tags, {};
    }
  }

  class WalkCtx {
    var pc: uint64
    var fp: uint64
    var sp: uint64
    var nPcs: nat
    const rec: SampleRecord
    var pending: uint32
    var done: set<int>

    ghost predicate Valid()
      reads this
    {
      rec.Valid() && nPcs <= MAX_FRAMES
    }

    ghost function View(): Walk
      requires Valid()
      reads this, rec, rec.pcs, rec.tags
    {
      Walk(pc, fp, sp, rec.Slots(nPcs), rec.flags, pending, done)
    }

    constructor (rec: SampleRecord, pc: uint64, fp: uint64, sp: uint64)
      requires rec.Valid()
      ensures Valid() && this.rec == rec
      ensures View() == Walk(pc, fp, sp, [], rec.flags, UNWINDER_NATIVE, {})
    {
      this.rec, this.pc, this.fp, this.sp := rec, pc, fp, sp;
      nPcs, pending, done := 0, UNWINDER_NATIVE, {};
    }

    method Push(word: uint64) returns (refused: bool)
      requires Valid()
      modifies this`nPcs, rec, rec.pcs, rec.tags
      ensures Valid()
      ensures View() == PushNative(old(View()), word)
      ensures refused <==> old(nPcs) >= MAX_FRAMES
    {
      var i := nPcs;
      if i >= MAX_FRAMES {
        rec.flags := rec.flags + {FramePushRefused};
        return true;
      }
      ghost var before := rec.Slots(i);
      rec.tags[i] := TAG_NATIVE;
      rec.pcs[i] := word;
      nPcs := i + 1;
      assert rec.Slots(nPcs) == before + [Slot(TAG_NATIVE, word)];
      return false;
    }

    method PushInterp(tag: uint8, a: uint64, b: uint64) returns (refused: bool)
      requires Valid()
      modifies this`nPcs, rec, rec.pcs, rec.tags
      ensures Valid()
      ensures View() == PushPair(old(View()), tag, a, b)
      ensures refused <==> old(nPcs) > MAX_FRAMES - 2
    {
      var i := nPcs;
      if i > MAX_FRAMES - 2 {
        rec.flags := rec.flags + {FramePushRefused};
        return true;
      }
      ghost var before := rec.Slots(i);
      rec.tags[i] := tag;
      rec.pcs[i] := a;
      rec.tags[i + 1] := tag;
      rec.pcs[i + 1] := b;
      nPcs := i + 2;
      assert rec.Slots(nPcs) == before + [Slot(tag, a), Slot(tag, b)];
      return false;
    }

    /** One frame; lead == false is the frame a resumed walk starts on, already in the
        record and already served. */
    method UnwindFrame(env: Env, interp: bool, lead: bool) returns (stop: bool)
      requires Valid()
      modifies this, rec, rec.pcs, rec.tags
      ensures Valid()
      ensures (View(), stop) == if lead then LeadFrame(env, interp, old(View())) else Advance(env, old(View()))
    {
      if lead {
        var refused := Push(pc);
        if refused {
          return true;
        }
        if interp {
          var u := NextUnwinder(env, pc, done);
          if u != UNWINDER_NATIVE {
            pending := u;
            return true;
          }
        }
      }
      stop := MovePast(env);
    }

    /** Everything after the push and the offer: flag a table gap, then step by table row
        or by frame pointer. */
    method MovePast(env: Env) returns (stop: bool)
      requires Valid()
      modifies this, rec, rec.pcs, rec.tags
      ensures Valid()
      ensures (View(), stop) == Advance(env, old(View()))
    {
      var ep := RowFor(env, pc);
      if ep.Some? {
        stop := MoveByRow(env, ep.value);
        return;
      }
      ghost var before := View();
      ghost var o := FramePointerStep(env, fp, FpChainEnded(before));
      ghost var d := Decide(env, pc, fp, sp, FpChainEnded(before));
      if Misses(env, pc) {
        rec.flags := rec.flags + {CfiMiss};
      }
      ghost var mid := View();
      assert mid.flags + o.raises == before.flags + d.raises;
      assert mid.(flags := mid.flags + o.raises) == before.(flags := before.flags + d.raises);
      assert FpChainEnded(mid) == FpChainEnded(before);
      stop := MoveByFramePointer(env);
    }

    method MoveByRow(env: Env, e: CfiRow) returns (stop: bool)
      requires Valid()
      modifies this`pc, this`fp, this`sp, rec`flags
      ensures Valid()
      ensures var o := TableStep(env, e, old(fp), old(sp), FpChainEnded(old(View())));
        && rec.flags == old(rec.flags) + o.raises
        && stop == o.caller.None? && o.extra.None?
        && (pc, fp, sp) == if stop then old((pc, fp, sp)) else o.caller.value
    {
      var base := if e.cfa.CfaFp? then fp else sp;
      var cfa := Add64(base, e.cfaOffset);
      var retAddr: uint64 := 0;
      if e.ra.OffsetCfa? {
        if FpTerminated in rec.flags {
          rec.flags := rec.flags + {RootDisagreement};
          return true;
        }
        var slot := env.read(Add64(cfa, e.raOffset));
        if slot.None? {
          return true;
        }
        retAddr := slot.value;
        if retAddr == 0 {
          rec.flags := rec.flags + {RaZero};
          return true;
        }
      } else if e.ra.Undefined? {
        rec.flags := rec.flags + {RaUndefined};
        return true;
      } else {
        return true;
      }
      var newFp := fp;
      if e.fp.OffsetCfa? {
        var slot := env.read(Add64(cfa, e.fpOffset));
        if slot.None? {
          return true;
        }
        newFp := slot.value;
      } else if !e.fp.SameValue? {
        newFp := 0;
      }
      pc, fp, sp := retAddr, newFp, cfa;
      rec.flags := rec.flags + {DwarfUsed};
      return false;
    }

    method MoveByFramePointer(env: Env) returns (stop: bool)
      requires Valid()
      modifies this, rec, rec.pcs, rec.tags
      ensures Valid()
      ensures var o := FramePointerStep(env, old(fp), FpChainEnded(old(View())));
        var flagged := old(View()).(flags := old(rec.flags) + o.raises);
        && stop == o.caller.None?
        && View() == match o.caller {
          case Some((pc, fp, sp)) => flagged.(pc := pc, fp := fp, sp := sp)
          case None => if o.extra.Some? then PushNative(flagged, o.extra.value) else flagged
        }
    {
      if fp == 0 {
        if FpTerminated !in rec.flags {
          rec.flags := rec.flags + {FpExhausted};
        }
        return true;
      }
      var saved := env.read(fp);
      if saved.None? {
        return true;
      }
      var ret := env.read(Add64(fp, 8));
      if ret.None? {
        return true;
      }
      if saved.value <= fp {
        if saved.value == 0 {
          rec.flags := rec.flags + {FpTerminated};
          if ret.value == 0 {
            return true;
          }
          sp := Add64(fp, 16);
          pc := ret.value;
          fp := 0;
          return false;
        }
        rec.flags := rec.flags + {FpNonmonotonic};
        if ret.value != 0 {
          var refused := Push(ret.value);
        }
        return true;
      }
      sp := Add64(fp, 16);
      pc := ret.value;
      fp := saved.value;
      return false;
    }
  }
}
