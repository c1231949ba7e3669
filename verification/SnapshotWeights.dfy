/** What the probe can make the projection divide by (gpuprobe/consumer.go,
    gpu/timeline.go, gpu/projection.go): over every run fed by it, no snapshot is projected
    with a panic, and every one conserves its durations. */
module SnapshotWeights {
  import opened Machine
  import opened GpuEvents
  import opened BoundedFifo
  import opened PendingSamples
  import opened SampleJoin
  import opened SampleConservation
  import Weights
  import Projection
  import ProjectionMemo

  /** A count as the wire carries it: 32 bits, widened by the consumer. */
  predicate Narrow(p: PcSample) { p.count < TWO32 }

  /** Every sample a run emits came through the probe. */
  ghost predicate FromProbe(steps: seq<Step>) {
    forall i :: 0 <= i < |steps| && steps[i].EmitSample? ==> Narrow(steps[i].sample)
  }

  /** The most samples one execution can collect: its own correlation's group, and every
      group of the module store. */
  function Collected(cfg: Config): nat {
    cfg.correlations.perGroup + cfg.modules.groups * cfg.modules.perGroup
  }

  /** The shipped sizes, whatever the capacity of the launch cache. */
  function Shipped(capacity: nat, horizonNs: uint64): Config {
    Config(Bounds(capacity, 4096, horizonNs), Bounds(4096, 4096, horizonNs))
  }

  lemma ShippedFits(capacity: nat, horizonNs: uint64)
    ensures Collected(Shipped(capacity, horizonNs)) <= TWO32
  {
  }

  // ----- Only what was emitted is ever shared out.

  lemma {:induction false} EmittedNarrow(cfg: Config, steps: seq<Step>, p: PcSample)
    requires FromProbe(steps) && p in Run(cfg, steps).emitted
    ensures Narrow(p)
  {
    if steps != [] {
      var before, step := steps[..|steps| - 1], steps[|steps| - 1];
      if p in Run(cfg, before).emitted {
        EmittedNarrow(cfg, before, p);
      }
    }
  }

  lemma {:induction false} SharedHolds(shares: seq<seq<PcSample>>, i: nat, p: PcSample)
    requires i < |shares| && p in shares[i]
    ensures p in Shared(shares)
  {
    var n := |shares| - 1;
    if i < n {
      SharedHolds(shares[..n], i, p);
    } else {
      assert p in multiset(shares[n]);
    }
  }

  /** A snapshot shares out nothing the stores did not hold. */
  lemma SharedFromStores(ev: Evidence, s: Stores, execs: seq<Exec>, keys: seq<ModuleKey>, p: PcSample)
    requires Distinct(s.byCorrelation) && Distinct(s.byModule)
    requires p in Shared(Snapshot(ev, s, execs, keys).shares)
    ensures p in Bag(s.byCorrelation) || p in Bag(s.byModule)
  {
    var exact := ExactShares(s.byCorrelation, execs);
    var r := Snapshot(ev, s, execs, keys);
    ExactConserves(s.byCorrelation, execs);
    PlacedConserves(ev, execs, ExactServed(s.byCorrelation, execs), Opening(s.byModule, exact), keys);
    assert p in Bag(r.byModule) + Shared(r.shares);
    if p !in Bag(s.byModule) {
      assert p in Shared(exact);
      assert p in Bag(AfterExact(s.byCorrelation, execs)) + Shared(exact);
    }
  }

  lemma ShareNarrow(cfg: Config, steps: seq<Step>, ev: Evidence, execs: seq<Exec>, keys: seq<ModuleKey>,
                    i: nat, p: PcSample)
    requires cfg.correlations.perGroup >= 1 && cfg.modules.perGroup >= 1 && FromProbe(steps) && i < |execs|
    requires p in Snapshot(ev, Run(cfg, steps).stores, execs, keys).shares[i]
    ensures Narrow(p)
  {
    var l := Run(cfg, steps);
    SamplesConserved(cfg, steps);
    SharedHolds(Snapshot(ev, l.stores, execs, keys).shares, i, p);
    SharedFromStores(ev, l.stores, execs, keys, p);
    assert p in l.emitted;
    EmittedNarrow(cfg, steps, p);
  }

  // ----- How many samples one execution collects.

  lemma {:induction false} SizeBounded<K(!new)>(q: Line<K>, perGroup: nat)
    requires forall x :: x in q ==> |x.value.samples| <= perGroup
    ensures Size(q) <= |q| * perGroup
  {
    if q != [] {
      assert q[0] in q;
      SizeBounded(q[1..], perGroup);
    }
  }

  lemma SizeWithin<K(!new)>(b: Bounds, q: Line<K>, keyOf: PcSample -> K, takes: PcSample -> bool)
    requires Sound(b, q, keyOf, takes)
    ensures Size(q) <= b.groups * b.perGroup
  {
    SizeBounded(q, b.perGroup);
    Weights.MulMono(|q|, b.groups, b.perGroup);
  }

  lemma {:induction false} ExactBounded(b: Bounds, q: Line<Correlation>, execs: seq<Exec>, i: nat)
    requires Sound(b, q, CorrelationOf, Correlated) && i < |execs|
    ensures |ExactShares(q, execs)[i]| <= b.perGroup
  {
    var n := |execs| - 1;
    if i < n {
      ExactBounded(b, q, execs[..n], i);
    } else {
      ExactConserves(q, execs[..n]);
      var mid := AfterExact(q, execs[..n]);
      if Find(mid, execs[n].correlation).Some? {
        assert Item(execs[n].correlation, Find(mid, execs[n].correlation).value) in q;
      }
    }
  }

  /** A group that joins an execution leaves the store by as much as the execution gains. */
  lemma {:induction false} PlacedBounded(ev: Evidence, execs: seq<Exec>, served: seq<bool>, j: Join,
                                         keys: seq<ModuleKey>, i: nat)
    requires |served| == |execs| == |j.shares| == |j.attribs| && i < |execs| && Distinct(j.byModule)
    ensures var r := Placed(ev, execs, served, j, keys);
      |r.shares[i]| + Size(r.byModule) <= |j.shares[i]| + Size(j.byModule)
  {
    if keys != [] {
      var n := |keys| - 1;
      PlacedBounded(ev, execs, served, j, keys[..n], i);
      PlacedConserves(ev, execs, served, j, keys[..n]);
      SizeWithoutKey(Placed(ev, execs, served, j, keys[..n]).byModule, keys[n]);
    }
  }

  lemma ShareBounded(cfg: Config, steps: seq<Step>, ev: Evidence, execs: seq<Exec>, keys: seq<ModuleKey>, i: nat)
    requires cfg.correlations.perGroup >= 1 && cfg.modules.perGroup >= 1 && i < |execs|
    ensures |Snapshot(ev, Run(cfg, steps).stores, execs, keys).shares[i]| <= Collected(cfg)
  {
    SamplesConserved(cfg, steps);
    var s := Run(cfg, steps).stores;
    ExactBounded(cfg.correlations, s.byCorrelation, execs, i);
    SizeWithin(cfg.modules, s.byModule, ModuleKeyFor, Uncorrelated);
    PlacedBounded(ev, execs, ExactServed(s.byCorrelation, execs),
                  Opening(s.byModule, ExactShares(s.byCorrelation, execs)), keys, i);
  }

  // ----- So the total of one execution's counts fits its word.

  lemma {:induction false} NarrowTotal(cs: seq<uint64>)
    requires forall i :: 0 <= i < |cs| ==> cs[i] < TWO32
    ensures Weights.Total(cs) <= |cs| * (TWO32 - 1)
  {
    if cs != [] {
      NarrowTotal(cs[..|cs| - 1]);
    }
  }

  lemma NarrowFits(ps: seq<PcSample>)
    requires |ps| <= TWO32 && forall p :: p in ps ==> Narrow(p)
    ensures Weights.Total(ProjectionMemo.Counts(ps)) < TWO64
  {
    var cs := ProjectionMemo.Counts(ps);
    forall i | 0 <= i < |cs| ensures cs[i] < TWO32 {
      assert ps[i] in ps;
    }
    NarrowTotal(cs);
    Weights.MulMono(|cs|, TWO32, TWO32 - 1);
  }

  /** Over every run fed by the probe into stores of bounded size: whatever snapshot is taken
      and however it is labelled, it is projected without a panic, and its sample values sum
      to its executions' durations. */
  lemma ProbeNeverPanics(cfg: Config, steps: seq<Step>, ev: Evidence, execs: seq<Exec>, keys: seq<ModuleKey>,
                         views: seq<Projection.View>, build: Projection.View -> Labels, ceiling: nat,
                         seen: set<uint64>, resolve: PcSample -> ProjectionMemo.Resolution)
    requires cfg.correlations.perGroup >= 1 && cfg.modules.perGroup >= 1 && Collected(cfg) <= TWO32
    requires FromProbe(steps) && |views| == |execs|
    requires forall i :: 0 <= i < |views| ==>
      views[i].pcSamples == Snapshot(ev, Run(cfg, steps).stores, execs, keys).shares[i]
    ensures var r := ProjectionMemo.PlainAll(views, build, ceiling, seen, resolve);
      r.Some? && Weights.Sum(ProjectionMemo.ValuesOf(r.value)) == Weights.Duration(ProjectionMemo.Intervals(views))
  {
    forall v | v in views ensures Weights.Total(ProjectionMemo.Counts(v.pcSamples)) < TWO64 {
      var i :| 0 <= i < |views| && views[i] == v;
      ShareBounded(cfg, steps, ev, execs, keys, i);
      forall p | p in v.pcSamples ensures Narrow(p) {
        ShareNarrow(cfg, steps, ev, execs, keys, i, p);
      }
      NarrowFits(v.pcSamples);
    }
    ProjectionMemo.ProjectionConserves(views, build, ceiling, seen, resolve);
  }
}
