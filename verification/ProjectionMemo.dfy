/** The projection loop with its memo (gpu/projection.go). Label sets are shared objects
    here, as they are in the source: what matters is that sharing never shows. */
module ProjectionMemo {
  import opened Machine
  import opened GpuEvents
  import opened Projection
  import opened Weights

  /** A label map, shared by reference. */
  class LabelSet {
    var entries: Labels

    constructor (entries: Labels)
      ensures this.entries == entries
    {
      this.entries := entries;
    }
  }

  function UnsampledFrames(kernelName: string): seq<string> {
    KernelFrame(kernelName) + [FRAME_LAUNCH_UNSAMPLED]
  }

  class Memo {
    const build: View -> Labels
    var frameMemo: map<string, seq<string>>
    var labelMemo: map<LabelKey, LabelSet>

    /** What is stored under a key is still what any view of that key would be given. */
    ghost predicate Valid()
      reads this, labelMemo.Values
    {
      && Keyed(build)
      && (forall name :: name in frameMemo ==> frameMemo[name] == UnsampledFrames(name))
      && (forall k :: k in labelMemo ==> labelMemo[k].entries == build(Bare(k)))
    }

    constructor (build: View -> Labels)
      requires Keyed(build)
      ensures Valid() && this.build == build && frameMemo == map[] && labelMemo == map[]
    {
      this.build := build;
      frameMemo, labelMemo := map[], map[];
    }

    method Frames(v: View) returns (frames: seq<string>)
      requires Valid()
      modifies this`frameMemo
      ensures Valid() && frames == ProjectionFrames(v)
    {
      if v.Sampled() {
        return ProjectionFrames(v);
      }
      if v.kernelName !in frameMemo {
        frameMemo := frameMemo[v.kernelName := ProjectionFrames(v)];
      }
      frames := frameMemo[v.kernelName];
    }

    method CommonLabels(v: View) returns (l: LabelSet)
      requires Valid()
      modifies this`labelMemo
      ensures Valid() && l.entries == build(v)
      ensures l in old(labelMemo.Values) || fresh(l)
    {
      if v.Tags() != map[] {
        l := new LabelSet(build(v));
        return;
      }
      var k := KeyOf(v);
      if k !in labelMemo {
        l := new LabelSet(build(v));
        labelMemo := labelMemo[k := l];
      }
      l := labelMemo[k];
    }
  }

  // ----- Labels of one PC sample.

  /** What the module store answers for an instruction. */
  datatype Resolution = Resolved(file: string, func: string, line: uint32) | Unresolved(status: string)

  function SourceLabels(labels: Labels, res: Resolution): Labels {
    match res
    case Unresolved(status) => labels[GpuSrcStatus := status]
    case Resolved(file, func, line) =>
      var stated := labels[GpuSrcStatus := "resolved"];
      Set(Set(stated, file != "", GpuSrcFile, file), func != "", GpuSrcFunc, func)[GpuSrcLine := Decimal(line)]
  }

  function SampleLabels(common: Labels, pcAttrib: string, p: PcSample, admitted: bool, res: Resolution): Labels {
    var stalled := Set(common, p.stallReason != "", GpuStall, p.stallReason);
    var placed := Set(stalled, admitted, GpuPc, Hexadecimal(p.pcOffset));
    SourceLabels(placed[GpuPcAttrib := pcAttrib], res)
  }

  /** An instruction seen before keeps its label; a new one gets one while there is room. */
  predicate Admits(ceiling: nat, seen: set<uint64>, pcOffset: uint64) {
    pcOffset in seen || |seen| < ceiling
  }

  function Grown(ceiling: nat, seen: set<uint64>, pcOffset: uint64): set<uint64> {
    if Admits(ceiling, seen, pcOffset) then seen + {pcOffset} else seen
  }

  /** The instructions labelled once a run of samples has gone by. */
  function Seen(ceiling: nat, seen: set<uint64>, ps: seq<PcSample>): set<uint64> {
    if ps == [] then seen else Grown(ceiling, Seen(ceiling, seen, ps[..|ps| - 1]), ps[|ps| - 1].pcOffset)
  }

  function Offsets(ps: seq<PcSample>): set<uint64> {
    if ps == [] then {} else Offsets(ps[..|ps| - 1]) + {ps[|ps| - 1].pcOffset}
  }

  /** All instructions are labelled while they fit; past that exactly as many as fit, and an
      instruction once labelled always is. */
  lemma {:induction false} BudgetExact(ceiling: nat, ps: seq<PcSample>)
    ensures var seen := Seen(ceiling, {}, ps);
      && seen <= Offsets(ps)
      && (|Offsets(ps)| <= ceiling ==> seen == Offsets(ps))
      && (|Offsets(ps)| > ceiling ==> |seen| == ceiling)
    ensures ps != [] ==> Seen(ceiling, {}, ps[..|ps| - 1]) <= Seen(ceiling, {}, ps)
  {
    if ps != [] {
      var before, x := ps[..|ps| - 1], ps[|ps| - 1].pcOffset;
      BudgetExact(ceiling, before);
      var was, seen := Offsets(before), Seen(ceiling, {}, before);
      assert |Offsets(ps)| == |was| + if x in was then 0 else 1 by {
        if x in was {
          assert was + {x} == was;
        }
      }
      if x in seen {
        assert seen + {x} == seen;
      }
    }
  }

  /** A sample's labels, name by name: its own where it has something to say, else those its
      execution shares; where it is in the source only under a resolved status. */
  lemma SampleLabelsExact(common: Labels, pcAttrib: string, p: PcSample, admitted: bool, res: Resolution, x: LabelName)
    ensures Lookup(SampleLabels(common, pcAttrib, p, admitted, res), x) ==
      match x
      case GpuStall => if p.stallReason != "" then Some(p.stallReason) else Lookup(common, x)
      case GpuPc => if admitted then Some(Hexadecimal(p.pcOffset)) else Lookup(common, x)
      case GpuPcAttrib => Some(pcAttrib)
      case GpuSrcStatus => Some(if res.Resolved? then "resolved" else res.status)
      case GpuSrcFile => if res.Resolved? && res.file != "" then Some(res.file) else Lookup(common, x)
      case GpuSrcFunc => if res.Resolved? && res.func != "" then Some(res.func) else Lookup(common, x)
      case GpuSrcLine => if res.Resolved? then Some(Decimal(res.line)) else Lookup(common, x)
      case _ => Lookup(common, x)
  {
    var stalled := Set(common, p.stallReason != "", GpuStall, p.stallReason);
    var placed := Set(stalled, admitted, GpuPc, Hexadecimal(p.pcOffset));
    SourceExact(placed[GpuPcAttrib := pcAttrib], res, x);
  }

  lemma SourceExact(labels: Labels, res: Resolution, x: LabelName)
    ensures Lookup(SourceLabels(labels, res), x) ==
      match x
      case GpuSrcStatus => Some(if res.Resolved? then "resolved" else res.status)
      case GpuSrcFile => if res.Resolved? && res.file != "" then Some(res.file) else Lookup(labels, x)
      case GpuSrcFunc => if res.Resolved? && res.func != "" then Some(res.func) else Lookup(labels, x)
      case GpuSrcLine => if res.Resolved? then Some(Decimal(res.line)) else Lookup(labels, x)
      case _ => Lookup(labels, x)
  {
  }

  /** How many distinct instruction labels one profile may carry. */
  class LabelBudget {
    const ceiling: nat
    var seen: set<uint64>
    var suppressed: nat

    ghost predicate Valid() reads this { |seen| <= ceiling }

    constructor (max: int)
      ensures Valid() && seen == {} && suppressed == 0 && ceiling == if max <= 0 then 20_000 else max
    {
      ceiling := if max <= 0 then 20_000 else max;
      seen, suppressed := {}, 0;
    }

    /** A label once admitted stays admitted, and there are never more than the ceiling. */
    method Admit(pcOffset: uint64) returns (admitted: bool)
      requires Valid()
      modifies this
      ensures Valid() && old(seen) <= seen
      ensures admitted == Admits(ceiling, old(seen), pcOffset) == (pcOffset in seen)
      ensures seen == Grown(ceiling, old(seen), pcOffset)
      ensures suppressed == old(suppressed) + if admitted then 0 else 1
    {
      if pcOffset in seen {
        assert seen + {pcOffset} == seen;
        return true;
      }
      if |seen| >= ceiling {
        suppressed := suppressed + 1;
        return false;
      }
      seen := seen + {pcOffset};
      admitted := true;
    }
  }

  // ----- What a projection is, with nothing shared.

  /** A projected sample as a value. */
  datatype Plain = Plain(pid: uint32, stack: seq<string>, labels: Labels, value: uint64)

  function Counts(ps: seq<PcSample>): (cs: seq<uint64>)
    ensures |cs| == |ps|
  {
    seq(|ps|, i requires 0 <= i < |ps| => ps[i].count)
  }

  function Interval(v: View): Timed { Timed(v.startNs, v.endNs, Counts(v.pcSamples)) }

  /** The first n samples of an execution that has PC samples. */
  function PlainSamples(v: View, common: Labels, weights: seq<uint64>, n: nat, ceiling: nat, seen: set<uint64>,
                        resolve: PcSample -> Resolution): seq<Plain>
    requires n <= |v.pcSamples| == |weights|
  {
    if n == 0 then []
    else
      var p := v.pcSamples[n - 1];
      var admitted := Admits(ceiling, Seen(ceiling, seen, v.pcSamples[..n - 1]), p.pcOffset);
      PlainSamples(v, common, weights, n - 1, ceiling, seen, resolve)
      + [Plain(v.ProjectionPID(), ProjectionFrames(v), SampleLabels(common, v.pcAttrib, p, admitted, resolve(p)),
               weights[n - 1])]
  }

  /** All samples of one execution; None is the division's panic. */
  function PlainView(v: View, common: Labels, ceiling: nat, seen: set<uint64>, resolve: PcSample -> Resolution)
    : Option<seq<Plain>>
  {
    if v.pcSamples == [] then Some([Plain(v.ProjectionPID(), ProjectionFrames(v), common, Interval(v).Weight())])
    else
      match Split(Interval(v).Weight(), Counts(v.pcSamples))
      case None => None
      case Some(ws) => Some(PlainSamples(v, common, ws, |v.pcSamples|, ceiling, seen, resolve))
  }

  function SeenBy(ceiling: nat, seen: set<uint64>, views: seq<View>): set<uint64> {
    if views == [] then seen
    else Seen(ceiling, SeenBy(ceiling, seen, views[..|views| - 1]), views[|views| - 1].pcSamples)
  }

  /** A whole snapshot, every execution built on its own. */
  function PlainAll(views: seq<View>, build: View -> Labels, ceiling: nat, seen: set<uint64>,
                    resolve: PcSample -> Resolution): Option<seq<Plain>>
  {
    if views == [] then Some([])
    else
      var before, v := views[..|views| - 1], views[|views| - 1];
      match (PlainAll(before, build, ceiling, seen, resolve),
             PlainView(v, build(v), ceiling, SeenBy(ceiling, seen, before), resolve))
      case (Some(a), Some(b)) => Some(a + b)
      case _ => None
  }

  function ValuesOf(ps: seq<Plain>): (vs: seq<uint64>)
    ensures |vs| == |ps| && forall i :: 0 <= i < |ps| ==> vs[i] == ps[i].value
  {
    seq(|ps|, i requires 0 <= i < |ps| => ps[i].value)
  }

  lemma {:induction false} SampleValues(v: View, common: Labels, weights: seq<uint64>, n: nat, ceiling: nat,
                                        seen: set<uint64>, resolve: PcSample -> Resolution)
    requires n <= |v.pcSamples| == |weights|
    ensures ValuesOf(PlainSamples(v, common, weights, n, ceiling, seen, resolve)) == weights[..n]
  {
    if n > 0 {
      SampleValues(v, common, weights, n - 1, ceiling, seen, resolve);
    }
  }

  lemma ViewValues(v: View, common: Labels, ceiling: nat, seen: set<uint64>, resolve: PcSample -> Resolution)
    ensures var r := PlainView(v, common, ceiling, seen, resolve);
      Values(Interval(v)) == if r.Some? then Some(ValuesOf(r.value)) else None
  {
    if v.pcSamples != [] {
      var ws := Split(Interval(v).Weight(), Counts(v.pcSamples));
      if ws.Some? {
        SampleValues(v, common, ws.value, |v.pcSamples|, ceiling, seen, resolve);
        assert ws.value[..|v.pcSamples|] == ws.value;
      }
    } else {
      var alone := PlainView(v, common, ceiling, seen, resolve).value;
      assert Counts(v.pcSamples) == [] && ValuesOf(alone) == [Interval(v).Weight()];
    }
  }

  function Intervals(views: seq<View>): (ts: seq<Timed>)
    ensures |ts| == |views| && forall i :: 0 <= i < |views| ==> ts[i] == Interval(views[i])
  {
    seq(|views|, i requires 0 <= i < |views| => Interval(views[i]))
  }

  /** The values of the projected samples are the split weights, execution by execution. */
  lemma {:induction false} ProjectedValues(views: seq<View>, build: View -> Labels, ceiling: nat, seen: set<uint64>,
                                           resolve: PcSample -> Resolution)
    ensures var r := PlainAll(views, build, ceiling, seen, resolve);
      Projected(Intervals(views)) == if r.Some? then Some(ValuesOf(r.value)) else None
  {
    if views != [] {
      var before, v := views[..|views| - 1], views[|views| - 1];
      ProjectedValues(before, build, ceiling, seen, resolve);
      ViewValues(v, build(v), ceiling, SeenBy(ceiling, seen, before), resolve);
      assert Intervals(views)[..|views| - 1] == Intervals(before);
      ValuesJoin(PlainAll(before, build, ceiling, seen, resolve),
                 PlainView(v, build(v), ceiling, SeenBy(ceiling, seen, before), resolve),
                 Projected(Intervals(before)), Values(Interval(v)));
    }
  }

  lemma ValuesJoin(a: Option<seq<Plain>>, b: Option<seq<Plain>>, x: Option<seq<uint64>>, y: Option<seq<uint64>>)
    requires x == (if a.Some? then Some(ValuesOf(a.value)) else None)
    requires y == (if b.Some? then Some(ValuesOf(b.value)) else None)
    ensures a.Some? && b.Some? ==> x.value + y.value == ValuesOf(a.value + b.value)
  {
  }

  /** So a snapshot whose counts sum below 2^64 execution by execution is projected without
      a panic, and its sample values sum to its executions' durations. */
  lemma ProjectionConserves(views: seq<View>, build: View -> Labels, ceiling: nat, seen: set<uint64>,
                            resolve: PcSample -> Resolution)
    requires forall v :: v in views ==> Total(Counts(v.pcSamples)) < TWO64
    ensures var r := PlainAll(views, build, ceiling, seen, resolve);
      r.Some? && Sum(ValuesOf(r.value)) == Duration(Intervals(views))
  {
    ProjectedValues(views, build, ceiling, seen, resolve);
    forall t | t in Intervals(views) ensures Total(t.counts) < TWO64 {
      var i :| 0 <= i < |views| && t == Interval(views[i]);
      assert views[i] in views;
    }
    WeightConserved(Intervals(views));
  }

  // ----- The loop, over shared label sets.

  datatype Sample = Sample(pid: uint32, stack: seq<string>, labels: LabelSet, value: uint64)

  /** What samples read as, at this moment. */
  ghost function Read(samples: seq<Sample>): (r: seq<Plain>)
    reads set s | s in samples :: s.labels
    ensures |r| == |samples|
  {
    seq(|samples|, i requires 0 <= i < |samples| reads set s | s in samples :: s.labels =>
      Plain(samples[i].pid, samples[i].stack, samples[i].labels.entries, samples[i].value))
  }

  lemma ReadAppend(a: seq<Sample>, b: seq<Sample>)
    ensures Read(a + b) == Read(a) + Read(b)
  {
  }

  lemma ReadOne(a: seq<Sample>, s: Sample)
    ensures Read(a + [s]) == Read(a) + [Plain(s.pid, s.stack, s.labels.entries, s.value)]
  {
    ReadAppend(a, [s]);
  }

  /** A clone of the shared labels, with this sample's own on top. */
  method OwnLabels(common: LabelSet, v: View, p: PcSample, budget: LabelBudget, resolve: PcSample -> Resolution)
    returns (l: LabelSet)
    requires budget.Valid()
    modifies budget
    ensures budget.Valid() && fresh(l) && budget.seen == Grown(budget.ceiling, old(budget.seen), p.pcOffset)
    ensures l.entries == SampleLabels(common.entries, v.pcAttrib, p,
                                      Admits(budget.ceiling, old(budget.seen), p.pcOffset), resolve(p))
  {
    l := new LabelSet(common.entries);
    if p.stallReason != "" {
      l.entries := l.entries[GpuStall := p.stallReason];
    }
    var admitted := budget.Admit(p.pcOffset);
    if admitted {
      l.entries := l.entries[GpuPc := Hexadecimal(p.pcOffset)];
    }
    l.entries := l.entries[GpuPcAttrib := v.pcAttrib];
    l.entries := SourceLabels(l.entries, resolve(p));
  }

  method ProjectSamples(v: View, frames: seq<string>, common: LabelSet, weights: seq<uint64>, budget: LabelBudget,
                        resolve: PcSample -> Resolution)
    returns (samples: seq<Sample>)
    requires budget.Valid() && frames == ProjectionFrames(v) && |weights| == |v.pcSamples|
    modifies budget
    ensures budget.Valid() && budget.seen == Seen(budget.ceiling, old(budget.seen), v.pcSamples)
    ensures Read(samples)
      == PlainSamples(v, common.entries, weights, |weights|, budget.ceiling, old(budget.seen), resolve)
  {
    samples := [];
    for k := 0 to |v.pcSamples|
      invariant budget.Valid() && budget.seen == Seen(budget.ceiling, old(budget.seen), v.pcSamples[..k])
      invariant Read(samples) == PlainSamples(v, common.entries, weights, k, budget.ceiling, old(budget.seen), resolve)
    {
      assert v.pcSamples[..k + 1][..k] == v.pcSamples[..k];
      var own := OwnLabels(common, v, v.pcSamples[k], budget, resolve);
      var next := Sample(v.ProjectionPID(), frames, own, weights[k]);
      ReadOne(samples, next);
      samples := samples + [next];
    }
    assert v.pcSamples[..|v.pcSamples|] == v.pcSamples;
  }

  method ProjectView(v: View, frames: seq<string>, common: LabelSet, budget: LabelBudget,
                     resolve: PcSample -> Resolution)
    returns (samples: seq<Sample>, ok: bool)
    requires budget.Valid() && frames == ProjectionFrames(v)
    modifies budget
    ensures budget.Valid()
    ensures ok ==> budget.seen == Seen(budget.ceiling, old(budget.seen), v.pcSamples)
    ensures PlainView(v, common.entries, budget.ceiling, old(budget.seen), resolve)
      == if ok then Some(Read(samples)) else None
  {
    var weight := ExecutionWeight(v.startNs, v.endNs);
    if |v.pcSamples| == 0 {
      samples := [Sample(v.ProjectionPID(), frames, common, weight)];
      assert Read(samples) == [Plain(v.ProjectionPID(), ProjectionFrames(v), common.entries, weight)];
      return samples, true;
    }
    var weights := Distribute(weight, Counts(v.pcSamples));
    if weights == None {
      return [], false;
    }
    samples := ProjectSamples(v, frames, common, weights.value, budget, resolve);
    ok := true;
  }

  /** What one execution's samples share, from the memo where there is one. */
  method Shared(memo: Memo?, build: View -> Labels, v: View) returns (frames: seq<string>, common: LabelSet)
    requires memo != null ==> memo.Valid() && memo.build == build
    modifies memo
    ensures frames == ProjectionFrames(v) && common.entries == build(v)
    ensures memo != null ==> memo.Valid()
  {
    if memo == null {
      frames := ProjectionFrames(v);
      common := new LabelSet(build(v));
    } else {
      frames := memo.Frames(v);
      common := memo.CommonLabels(v);
    }
  }

  method ProjectNext(v: View, build: View -> Labels, memo: Memo?, budget: LabelBudget, resolve: PcSample -> Resolution)
    returns (more: seq<Sample>, ok: bool)
    requires budget.Valid() && (memo != null ==> memo.Valid() && memo.build == build)
    modifies budget, memo
    ensures budget.Valid() && (memo != null ==> memo.Valid())
    ensures ok ==> budget.seen == Seen(budget.ceiling, old(budget.seen), v.pcSamples)
    ensures PlainView(v, build(v), budget.ceiling, old(budget.seen), resolve) == if ok then Some(Read(more)) else None
  {
    var frames, common := Shared(memo, build, v);
    more, ok := ProjectView(v, frames, common, budget, resolve);
  }

  lemma PlainNext(views: seq<View>, n: nat, build: View -> Labels, ceiling: nat, seen: set<uint64>,
                  resolve: PcSample -> Resolution)
    requires n < |views|
    ensures SeenBy(ceiling, seen, views[..n + 1])
      == Seen(ceiling, SeenBy(ceiling, seen, views[..n]), views[n].pcSamples)
    ensures PlainAll(views[..n + 1], build, ceiling, seen, resolve)
      == match (PlainAll(views[..n], build, ceiling, seen, resolve),
                PlainView(views[n], build(views[n]), ceiling, SeenBy(ceiling, seen, views[..n]), resolve))
         case (Some(a), Some(b)) => Some(a + b)
         case _ => None
  {
    assert views[..n + 1][..n] == views[..n];
  }

  lemma {:induction false} PanicSpoils(views: seq<View>, n: nat, build: View -> Labels, ceiling: nat, seen: set<uint64>,
                                       resolve: PcSample -> Resolution)
    requires n <= |views| && PlainAll(views[..n], build, ceiling, seen, resolve) == None
    ensures PlainAll(views, build, ceiling, seen, resolve) == None
  {
    if n < |views| {
      assert views[..|views| - 1][..n] == views[..n];
      PanicSpoils(views[..|views| - 1], n, build, ceiling, seen, resolve);
    } else {
      assert views[..n] == views;
    }
  }

  /** The projection, shared through a memo or not, reads as the one that shares nothing:
      at its end, for every sample, whatever was shared and whenever it was made. */
  method ProjectWith(views: seq<View>, build: View -> Labels, memo: Memo?, budget: LabelBudget,
                     resolve: PcSample -> Resolution)
    returns (samples: seq<Sample>, ok: bool)
    requires budget.Valid() && (memo != null ==> memo.Valid() && memo.build == build)
    modifies budget, memo
    ensures budget.Valid()
    ensures ok ==> budget.seen == SeenBy(budget.ceiling, old(budget.seen), views)
    ensures PlainAll(views, build, budget.ceiling, old(budget.seen), resolve)
      == if ok then Some(Read(samples)) else None
  {
    samples := [];
    for n := 0 to |views|
      invariant budget.Valid() && (memo != null ==> memo.Valid())
      invariant budget.seen == SeenBy(budget.ceiling, old(budget.seen), views[..n])
      invariant PlainAll(views[..n], build, budget.ceiling, old(budget.seen), resolve) == Some(Read(samples))
    {
      PlainNext(views, n, build, budget.ceiling, old(budget.seen), resolve);
      var more;
      more, ok := ProjectNext(views[n], build, memo, budget, resolve);
      if !ok {
        PanicSpoils(views, n + 1, build, budget.ceiling, old(budget.seen), resolve);
        return;
      }
      ReadAppend(samples, more);
      samples := samples + more;
    }
    assert views[..|views|] == views;
    ok := true;
  }

  method ProjectExecutions(views: seq<View>, omitCorrelation: bool, budget: LabelBudget,
                           resolve: PcSample -> Resolution)
    returns (samples: seq<Sample>, ok: bool)
    requires budget.Valid()
    modifies budget
    ensures budget.Valid()
    ensures ok ==> budget.seen == SeenBy(budget.ceiling, old(budget.seen), views)
    ensures PlainAll(views, Builder(omitCorrelation), budget.ceiling, old(budget.seen), resolve)
      == if ok then Some(Read(samples)) else None
  {
    var memo: Memo? := null;
    if omitCorrelation {
      BuilderKeyed();
      memo := new Memo(Builder(omitCorrelation));
    }
    samples, ok := ProjectWith(views, Builder(omitCorrelation), memo, budget, resolve);
  }
}
