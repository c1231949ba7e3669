/** Over every run of emits and snapshots, each PC sample is attributed once, waiting
    once, or counted as evicted once (gpu/timeline.go). */
module SampleConservation {
  import opened Machine
  import opened GpuEvents
  import opened BoundedFifo
  import opened PendingSamples
  import opened SampleJoin

  // ----- The samples of a store, as a multiset.

  function Bag<K>(q: Line<K>): multiset<PcSample> {
    if q == [] then multiset{} else multiset(q[0].value.samples) + Bag(q[1..])
  }

  lemma {:induction false} BagSize<K(!new)>(q: Line<K>)
    ensures |Bag(q)| == Size(q)
  {
    if q != [] {
      BagSize(q[1..]);
    }
  }

  lemma {:induction false} BagAppend<K(!new)>(q: Line<K>, x: Item<K, Group>)
    ensures Bag(q + [x]) == Bag(q) + multiset(x.value.samples)
  {
    if q == [] {
      assert q + [x] == [x];
      assert [x][1..] == [];
    } else {
      assert (q + [x])[1..] == q[1..] + [x];
      BagAppend(q[1..], x);
    }
  }

  lemma {:induction false} BagExtended<K(!new)>(q: Line<K>, key: K, p: PcSample)
    requires Distinct(q) && Holds(q, key)
    ensures Bag(Revalued(q, key, Grown(Find(q, key).value, p))) == Bag(q) + multiset{p}
  {
    HoldsRest(q, key);
    HoldsRest(q, q[0].key);
    if q[0].key == key {
      RevaluedElsewhere(q[1..], key, Grown(q[0].value, p));
      assert multiset(q[0].value.samples + [p]) == multiset(q[0].value.samples) + multiset{p};
    } else {
      BagExtended(q[1..], key, p);
    }
  }

  lemma BagAccumulated<K(!new)>(q: Line<K>, key: K, p: PcSample)
    requires Distinct(q)
    ensures Bag(Accumulated(q, key, p)) == Bag(q) + multiset{p}
    ensures Distinct(Accumulated(q, key, p))
  {
    if Find(q, key).Some? {
      BagExtended(q, key, p);
    } else {
      BagAppend(q, Item(key, Grown(Group([], 0), p)));
    }
  }

  lemma {:induction false} BagWithout<K(!new)>(q: Line<K>, key: K)
    requires Distinct(q)
    ensures Bag(Without(q, key)) + multiset(Waiting(q, key)) == Bag(q)
  {
    if q != [] {
      HoldsRest(q, q[0].key);
      if q[0].key == key {
        WithoutDrops(q[1..], key);
      } else {
        BagWithout(q[1..], key);
      }
    }
  }

  /** The samples of the groups an eviction drops, group by group. */
  function StaleBag<K>(horizonNs: uint64, newestNs: uint64, q: Line<K>): multiset<PcSample> {
    if q == [] || !Stale(horizonNs, newestNs, q[0].value) then multiset{}
    else multiset(q[0].value.samples) + StaleBag(horizonNs, newestNs, q[1..])
  }

  function OverflowBag<K>(groups: nat, q: Line<K>): multiset<PcSample> {
    if |q| > groups then multiset(q[0].value.samples) + OverflowBag(groups, q[1..]) else multiset{}
  }

  /** The samples the bounds drop. */
  function Pushed<K>(b: Bounds, newestNs: uint64, q: Line<K>): multiset<PcSample> {
    StaleBag(b.horizonNs, newestNs, q) + OverflowBag(b.groups, Recent(b.horizonNs, newestNs, q))
  }

  /** The very samples one emit drops. */
  function Dropped<K(==)>(b: Bounds, newestNs: uint64, q: Line<K>, key: K, p: PcSample): multiset<PcSample> {
    if Full(b, q, key) then multiset{p} + Pushed(b, newestNs, q) else Pushed(b, newestNs, Accumulated(q, key, p))
  }

  /** What evictions leave: a suffix, so keys stay distinct. */
  ghost predicate Within<K>(q: Line<K>, left: Line<K>) {
    && (Distinct(q) ==> Distinct(left))
    && (forall x :: x in left ==> x in q)
  }

  lemma {:induction false} RecentWithin<K(!new)>(horizonNs: uint64, newestNs: uint64, q: Line<K>)
    ensures Within(q, Recent(horizonNs, newestNs, q))
    ensures StaleBag(horizonNs, newestNs, q) + Bag(Recent(horizonNs, newestNs, q)) == Bag(q)
    ensures |StaleBag(horizonNs, newestNs, q)| == StaleSamples(horizonNs, newestNs, q)
  {
    if q != [] && Stale(horizonNs, newestNs, q[0].value) {
      RecentWithin(horizonNs, newestNs, q[1..]);
      HoldsRest(q, q[0].key);
    }
  }

  lemma {:induction false} NewestWithin<K(!new)>(groups: nat, q: Line<K>)
    ensures Within(q, Newest(groups, q)) && |Newest(groups, q)| <= groups
    ensures OverflowBag(groups, q) + Bag(Newest(groups, q)) == Bag(q)
    ensures |OverflowBag(groups, q)| == OverflowSamples(groups, q)
  {
    if |q| > groups {
      NewestWithin(groups, q[1..]);
      HoldsRest(q, q[0].key);
    }
  }

  lemma BoundedWithin<K(!new)>(b: Bounds, newestNs: uint64, q: Line<K>)
    ensures Within(q, Bounded(b, newestNs, q)) && |Bounded(b, newestNs, q)| <= b.groups
  {
    RecentWithin(b.horizonNs, newestNs, q);
    NewestWithin(b.groups, Recent(b.horizonNs, newestNs, q));
  }

  // ----- What a store keeps: samples it takes, each group under its samples' key, bounded.

  ghost predicate Sound<K(!new)>(b: Bounds, q: Line<K>, keyOf: PcSample -> K, takes: PcSample -> bool) {
    && Distinct(q)
    && |q| <= b.groups
    && (forall x :: x in q ==> GroupSound(b, x, keyOf, takes))
  }

  ghost predicate GroupSound<K>(b: Bounds, x: Item<K, Group>, keyOf: PcSample -> K, takes: PcSample -> bool) {
    && |x.value.samples| <= b.perGroup
    && (forall p :: p in x.value.samples ==> keyOf(p) == x.key && takes(p))
    && Anchored(x.value)
  }

  /** A group's anchor is the newest time among its samples. */
  ghost predicate Anchored(g: Group) {
    && (forall p :: p in g.samples ==> p.timeNs <= g.anchorNs)
    && (g.anchorNs == 0 || exists p :: p in g.samples && p.timeNs == g.anchorNs)
  }

  lemma GrownAnchored(g: Group, p: PcSample)
    requires Anchored(g)
    ensures Anchored(Grown(g, p))
  {
    var r := Grown(g, p);
    assert p in r.samples && forall x :: x in g.samples ==> x in r.samples;
  }

  lemma AccumulatedSound<K(!new)>(b: Bounds, q: Line<K>, p: PcSample, keyOf: PcSample -> K, takes: PcSample -> bool)
    requires Distinct(q) && forall x :: x in q ==> GroupSound(b, x, keyOf, takes)
    requires b.perGroup >= 1 && !Full(b, q, keyOf(p)) && takes(p)
    ensures forall x :: x in Accumulated(q, keyOf(p), p) ==> GroupSound(b, x, keyOf, takes)
  {
    var key := keyOf(p);
    var r := Accumulated(q, key, p);
    forall i | 0 <= i < |r| ensures GroupSound(b, r[i], keyOf, takes) {
      if i < |q| {
        assert q[i] in q;
        if q[i].key == key {
          FindAt(q, i);
          GrownAnchored(q[i].value, p);
        }
      } else {
        GrownAnchored(Group([], 0), p);
      }
    }
  }

  lemma {:induction false} FindAt<K(!new)>(q: Line<K>, i: nat)
    requires Distinct(q) && i < |q|
    ensures Find(q, q[i].key) == Some(q[i].value)
  {
    if i > 0 {
      HoldsRest(q, q[0].key);
      FindAt(q[1..], i - 1);
    }
  }

  /** One emit: what the store held and the sample are what it holds and what it dropped,
      and the counter rises by exactly the samples dropped. */
  lemma DroppedCounted<K(!new)>(b: Bounds, newestNs: uint64, q: Line<K>, key: K, p: PcSample)
    requires Distinct(q)
    ensures Bag(Added(b, newestNs, q, key, p)) + Dropped(b, newestNs, q, key, p) == Bag(q) + multiset{p}
    ensures |Dropped(b, newestNs, q, key, p)| == Evictions(b, newestNs, q, key, p)
  {
    BagAccumulated(q, key, p);
    PushedCounted(b, newestNs, if Full(b, q, key) then q else Accumulated(q, key, p));
  }

  /** Only what is too old or too much is dropped: an emit drops a sample only if it is the
      one emitted and its group is full, if it lies further back than the horizon, or if
      there are as many groups as there may be. */
  lemma DroppedWhy<K(!new)>(b: Bounds, newestNs: uint64, q: Line<K>, key: K, p: PcSample, x: PcSample)
    requires Distinct(q) && (forall y :: y in q ==> Anchored(y.value)) && x in Dropped(b, newestNs, q, key, p)
    ensures (x == p && |Waiting(q, key)| >= b.perGroup)
      || (b.horizonNs > 0 && x.timeNs + b.horizonNs < newestNs)
      || |q| >= b.groups
  {
    if Full(b, q, key) {
      if x != p {
        PushedWhy(b, newestNs, q, x);
      }
    } else {
      AccumulatedAnchored(q, key, p);
      PushedWhy(b, newestNs, Accumulated(q, key, p), x);
    }
  }

  lemma AccumulatedAnchored<K(!new)>(q: Line<K>, key: K, p: PcSample)
    requires forall y :: y in q ==> Anchored(y.value)
    ensures forall y :: y in Accumulated(q, key, p) ==> Anchored(y.value)
    ensures |Accumulated(q, key, p)| <= |q| + 1
  {
    var r := Accumulated(q, key, p);
    GrownAnchored(Group([], 0), p);
    forall i | 0 <= i < |r| ensures Anchored(r[i].value) {
      if i < |q| {
        assert q[i] in q;
        if Find(q, key).Some? {
          GrownAnchored(Find(q, key).value, p);
        }
      }
    }
  }

  lemma PushedWhy<K(!new)>(b: Bounds, newestNs: uint64, q: Line<K>, x: PcSample)
    requires (forall y :: y in q ==> Anchored(y.value)) && x in Pushed(b, newestNs, q)
    ensures (b.horizonNs > 0 && x.timeNs + b.horizonNs < newestNs) || |q| > b.groups
  {
    if x in StaleBag(b.horizonNs, newestNs, q) {
      StaleWhy(b.horizonNs, newestNs, q, x);
    }
  }

  lemma {:induction false} StaleWhy<K(!new)>(horizonNs: uint64, newestNs: uint64, q: Line<K>, x: PcSample)
    requires (forall y :: y in q ==> Anchored(y.value)) && x in StaleBag(horizonNs, newestNs, q)
    ensures horizonNs > 0 && x.timeNs + horizonNs < newestNs
  {
    assert q[0] in q;
    if x !in multiset(q[0].value.samples) {
      StaleWhy(horizonNs, newestNs, q[1..], x);
    }
  }

  lemma PushedCounted<K(!new)>(b: Bounds, newestNs: uint64, q: Line<K>)
    ensures Bag(Bounded(b, newestNs, q)) + Pushed(b, newestNs, q) == Bag(q)
    ensures |Pushed(b, newestNs, q)|
      == StaleSamples(b.horizonNs, newestNs, q) + OverflowSamples(b.groups, Recent(b.horizonNs, newestNs, q))
  {
    var recent := Recent(b.horizonNs, newestNs, q);
    RecentWithin(b.horizonNs, newestNs, q);
    NewestWithin(b.groups, recent);
    Regroup(Bag(Newest(b.groups, recent)), StaleBag(b.horizonNs, newestNs, q), OverflowBag(b.groups, recent),
            Bag(recent), Bag(q));
  }

  lemma Regroup(left: multiset<PcSample>, stale: multiset<PcSample>, over: multiset<PcSample>,
                recent: multiset<PcSample>, all: multiset<PcSample>)
    requires over + left == recent && stale + recent == all
    ensures left + (stale + over) == all
  {
    forall x ensures (left + (stale + over))[x] == all[x] {
      assert (over + left)[x] == recent[x] && (stale + recent)[x] == all[x];
    }
  }

  lemma AddedKeeps<K(!new)>(b: Bounds, newestNs: uint64, q: Line<K>, p: PcSample, keyOf: PcSample -> K,
                            takes: PcSample -> bool)
    requires Sound(b, q, keyOf, takes) && b.perGroup >= 1 && takes(p)
    ensures Sound(b, Added(b, newestNs, q, keyOf(p), p), keyOf, takes)
  {
    var key := keyOf(p);
    var grown := if Full(b, q, key) then q else Accumulated(q, key, p);
    BagAccumulated(q, key, p);
    if !Full(b, q, key) {
      AccumulatedSound(b, q, p, keyOf, takes);
    }
    BoundedWithin(b, newestNs, grown);
  }

  // ----- What a snapshot moves.

  function Shared(shares: seq<seq<PcSample>>): multiset<PcSample> {
    if shares == [] then multiset{}
    else Shared(shares[..|shares| - 1]) + multiset(shares[|shares| - 1])
  }

  lemma {:induction false} SharedMore(shares: seq<seq<PcSample>>, t: nat, more: seq<PcSample>)
    requires t < |shares|
    ensures Shared(shares[t := shares[t] + more]) == Shared(shares) + multiset(more)
  {
    var n := |shares| - 1;
    var r := shares[t := shares[t] + more];
    if t < n {
      SharedMore(shares[..n], t, more);
      assert r[..n] == shares[..n][t := shares[..n][t] + more];
    } else {
      assert r[..n] == shares[..n];
      assert multiset(shares[t] + more) == multiset(shares[t]) + multiset(more);
    }
  }

  lemma WithoutWithin<K(!new)>(q: Line<K>, key: K)
    requires Distinct(q)
    ensures Within(q, Without(q, key)) && |Without(q, key)| <= |q|
  {
    WithoutDistinct(q, key);
    WithoutDrops(q, key);
    BagWithout(q, key);
  }

  lemma {:induction false} ExactConserves(q: Line<Correlation>, execs: seq<Exec>)
    requires Distinct(q)
    ensures Bag(AfterExact(q, execs)) + Shared(ExactShares(q, execs)) == Bag(q)
    ensures Within(q, AfterExact(q, execs)) && |AfterExact(q, execs)| <= |q|
  {
    if execs != [] {
      var n := |execs| - 1;
      ExactConserves(q, execs[..n]);
      var mid := AfterExact(q, execs[..n]);
      BagWithout(mid, execs[n].correlation);
      WithoutWithin(mid, execs[n].correlation);
      assert ExactShares(q, execs)[..n] == ExactShares(q, execs[..n]);
    }
  }

  lemma PlaceConserves(j: Join, key: ModuleKey, outcome: Outcome)
    requires |j.shares| == |j.attribs| && (outcome.Joined? ==> outcome.target < |j.shares|)
    requires Distinct(j.byModule)
    ensures var r := Place(j, key, outcome);
      && Bag(r.byModule) + Shared(r.shares) == Bag(j.byModule) + Shared(j.shares)
      && Within(j.byModule, r.byModule) && |r.byModule| <= |j.byModule|
  {
    if outcome.Joined? {
      BagWithout(j.byModule, key);
      WithoutWithin(j.byModule, key);
      SharedMore(j.shares, outcome.target, Waiting(j.byModule, key));
    }
  }

  lemma {:induction false} PlacedConserves(ev: Evidence, execs: seq<Exec>, served: seq<bool>, j: Join,
                                           keys: seq<ModuleKey>)
    requires |served| == |execs| == |j.shares| == |j.attribs| && Distinct(j.byModule)
    ensures var r := Placed(ev, execs, served, j, keys);
      && Bag(r.byModule) + Shared(r.shares) == Bag(j.byModule) + Shared(j.shares)
      && Within(j.byModule, r.byModule) && |r.byModule| <= |j.byModule|
  {
    if keys != [] {
      var n := |keys| - 1;
      PlacedConserves(ev, execs, served, j, keys[..n]);
      PlaceConserves(Placed(ev, execs, served, j, keys[..n]), keys[n], Decide(ev, execs, served, keys[n]));
    }
  }

  // ----- Whole runs.

  datatype Step =
    | EmitSample(sample: PcSample)
    // The second critical section of a snapshot, over the executions its first section
    // took, with anything emitted in between; keys is the order groups are examined in.
    | JoinSamples(evidence: Evidence, execs: seq<Exec>, keys: seq<ModuleKey>)

  /** The stores, their eviction counters, and for the proof where every sample went. */
  datatype Ledger = Ledger(stores: Stores, evictedByCorrelation: nat, evictedByModule: nat,
                           emitted: multiset<PcSample>, attributed: multiset<PcSample>, lost: multiset<PcSample>)

  const OPENING := Ledger(Stores([], [], 0), 0, 0, multiset{}, multiset{}, multiset{})

  function Next(cfg: Config, l: Ledger, step: Step): Ledger {
    var s := l.stores;
    match step
    case EmitSample(p) =>
      var newestNs := Observed(s.newestNs, p.timeNs);
      var dropped :=
        if p.correlation.Present() then Dropped(cfg.correlations, newestNs, s.byCorrelation, p.correlation, p)
        else Dropped(cfg.modules, newestNs, s.byModule, ModuleKeyFor(p), p);
      l.(stores := Emitted(cfg, s, p),
         evictedByCorrelation := l.evictedByCorrelation + EvictedByCorrelation(cfg, s, p),
         evictedByModule := l.evictedByModule + EvictedByModule(cfg, s, p),
         emitted := l.emitted + multiset{p},
         lost := l.lost + dropped)
    case JoinSamples(ev, execs, keys) =>
      l.(stores := AfterSnapshot(ev, s, execs, keys),
         attributed := l.attributed + Shared(Snapshot(ev, s, execs, keys).shares))
  }

  function Run(cfg: Config, steps: seq<Step>): Ledger {
    if steps == [] then OPENING else Next(cfg, Run(cfg, steps[..|steps| - 1]), steps[|steps| - 1])
  }

  function CorrelationOf(p: PcSample): Correlation { p.correlation }

  predicate Correlated(p: PcSample) { p.correlation.Present() }

  predicate Uncorrelated(p: PcSample) { !p.correlation.Present() }

  ghost predicate Balanced(cfg: Config, l: Ledger) {
    && Sound(cfg.correlations, l.stores.byCorrelation, CorrelationOf, Correlated)
    && Sound(cfg.modules, l.stores.byModule, ModuleKeyFor, Uncorrelated)
    && l.emitted == l.attributed + Bag(l.stores.byCorrelation) + Bag(l.stores.byModule) + l.lost
    && |l.lost| == l.evictedByCorrelation + l.evictedByModule
  }

  lemma EmitBalanced(cfg: Config, l: Ledger, p: PcSample)
    requires cfg.correlations.perGroup >= 1 && cfg.modules.perGroup >= 1 && Balanced(cfg, l)
    ensures Balanced(cfg, Next(cfg, l, EmitSample(p)))
  {
    var s := l.stores;
    var newestNs := Observed(s.newestNs, p.timeNs);
    var t := Emitted(cfg, s, p);
    if p.correlation.Present() {
      AddedKeeps(cfg.correlations, newestNs, s.byCorrelation, p, CorrelationOf, Correlated);
      DroppedCounted(cfg.correlations, newestNs, s.byCorrelation, p.correlation, p);
      Kept(l.attributed, Bag(s.byCorrelation), Bag(s.byModule), l.lost, p, Bag(t.byCorrelation),
           Dropped(cfg.correlations, newestNs, s.byCorrelation, p.correlation, p));
    } else {
      AddedKeeps(cfg.modules, newestNs, s.byModule, p, ModuleKeyFor, Uncorrelated);
      DroppedCounted(cfg.modules, newestNs, s.byModule, ModuleKeyFor(p), p);
      Kept(l.attributed, Bag(s.byModule), Bag(s.byCorrelation), l.lost, p, Bag(t.byModule),
           Dropped(cfg.modules, newestNs, s.byModule, ModuleKeyFor(p), p));
    }
  }

  /** Moving x from c, then what it makes of m, to a leaves the sum alone. */
  lemma Moved(a: multiset<PcSample>, c: multiset<PcSample>, m: multiset<PcSample>, rest: multiset<PcSample>,
              exact: multiset<PcSample>, shared: multiset<PcSample>, c2: multiset<PcSample>, m2: multiset<PcSample>)
    requires c2 + exact == c && m2 + shared == m + exact
    ensures (a + shared) + c2 + m2 + rest == a + c + m + rest
  {
    forall p ensures (a + shared + c2 + m2 + rest)[p] == (a + c + m + rest)[p] {
      assert (c2 + exact)[p] == c[p] && (m2 + shared)[p] == (m + exact)[p];
    }
  }

  lemma Kept(a: multiset<PcSample>, q: multiset<PcSample>, other: multiset<PcSample>, lost: multiset<PcSample>,
             p: PcSample, left: multiset<PcSample>, gone: multiset<PcSample>)
    requires left + gone == q + multiset{p}
    ensures a + left + other + (lost + gone) == a + q + other + lost + multiset{p}
    ensures a + other + left + (lost + gone) == a + other + q + lost + multiset{p}
  {
    forall x
      ensures (a + left + other + (lost + gone))[x] == (a + q + other + lost + multiset{p})[x]
      ensures (a + other + left + (lost + gone))[x] == (a + other + q + lost + multiset{p})[x]
    {
      assert (left + gone)[x] == (q + multiset{p})[x];
    }
  }

  lemma JoinBalanced(cfg: Config, l: Ledger, step: Step)
    requires Balanced(cfg, l) && step.JoinSamples?
    ensures Balanced(cfg, Next(cfg, l, step))
  {
    var s, execs := l.stores, step.execs;
    var exact := ExactShares(s.byCorrelation, execs);
    var r := Snapshot(step.evidence, s, execs, step.keys);
    var t := AfterSnapshot(step.evidence, s, execs, step.keys);
    ExactConserves(s.byCorrelation, execs);
    PlacedConserves(step.evidence, execs, ExactServed(s.byCorrelation, execs),
                    Opening(s.byModule, exact), step.keys);
    Moved(l.attributed, Bag(s.byCorrelation), Bag(s.byModule), l.lost, Shared(exact), Shared(r.shares),
          Bag(t.byCorrelation), Bag(t.byModule));
  }

  /** At every lock release of every run, whatever interleaving of emits and snapshots
      led there: the samples emitted are those attributed, those waiting in either store
      and those the two eviction counters count, each once. */
  lemma {:induction false} SamplesConserved(cfg: Config, steps: seq<Step>)
    requires cfg.correlations.perGroup >= 1 && cfg.modules.perGroup >= 1
    ensures Balanced(cfg, Run(cfg, steps))
  {
    if steps != [] {
      var before, step := steps[..|steps| - 1], steps[|steps| - 1];
      SamplesConserved(cfg, before);
      if step.EmitSample? {
        EmitBalanced(cfg, Run(cfg, before), step.sample);
      } else {
        JoinBalanced(cfg, Run(cfg, before), step);
      }
    }
  }

  /** The same law in the units the profiler reports. */
  lemma SamplesCounted(cfg: Config, l: Ledger)
    requires Balanced(cfg, l)
    ensures |l.emitted| == |l.attributed| + Size(l.stores.byCorrelation) + Size(l.stores.byModule)
      + l.evictedByCorrelation + l.evictedByModule
  {
    BagSize(l.stores.byCorrelation);
    BagSize(l.stores.byModule);
  }

  /** Over every run, samples without a correlation wait with their own process, binary and
      function, under their module's backend or, where that is empty, their correlation's. */
  lemma GroupedAlike(cfg: Config, steps: seq<Step>, x: Item<ModuleKey, Group>, p: PcSample)
    requires cfg.correlations.perGroup >= 1 && cfg.modules.perGroup >= 1
    requires x in Run(cfg, steps).stores.byModule && p in x.value.samples
    ensures !p.correlation.Present() && x.key.pid == p.correlation.pid
    ensures x.key.crc == p.crc && x.key.functionIndex == p.functionIndex
    ensures x.key.backend == p.moduleBackend || (p.moduleBackend == "" && x.key.backend == p.correlation.backend)
    ensures p.moduleBackend == "" ==> x.key.backend == p.correlation.backend
  {
    SamplesConserved(cfg, steps);
  }

  /** The clock both stores age by. */
  function Clock(steps: seq<Step>): uint64 {
    if steps == [] then 0
    else
      var last := steps[|steps| - 1];
      if last.EmitSample? then Observed(Clock(steps[..|steps| - 1]), last.sample.timeNs)
      else Clock(steps[..|steps| - 1])
  }

  lemma {:induction false} RunClock(cfg: Config, steps: seq<Step>)
    ensures Run(cfg, steps).stores.newestNs == Clock(steps)
  {
    if steps != [] {
      RunClock(cfg, steps[..|steps| - 1]);
    }
  }

  lemma {:induction false} ClockRuns(steps: seq<Step>, i: nat)
    requires i <= |steps|
    ensures Clock(steps[..i]) <= Clock(steps)
  {
    if i == |steps| {
      assert steps[..i] == steps;
    } else {
      assert steps[..|steps| - 1][..i] == steps[..i];
      ClockRuns(steps[..|steps| - 1], i);
    }
  }

  /** It never runs back; no sample is ahead of it but one more than a minute ahead when it
      came; and it moves to a sample's time alone, once it stands by no more than a minute. */
  lemma ClockHonest(cfg: Config, steps: seq<Step>, i: nat)
    requires i < |steps| && steps[i].EmitSample?
    ensures var time, before := steps[i].sample.timeNs, Run(cfg, steps[..i]).stores.newestNs;
      var next, now := Run(cfg, steps[..i + 1]).stores.newestNs, Run(cfg, steps).stores.newestNs;
      && before <= next <= now
      && (next == before || next == time)
      && (time <= next || (before > 0 && time > before + 60_000_000_000))
      && (before > 0 ==> next <= before + 60_000_000_000)
  {
    assert steps[..i + 1][..i] == steps[..i];
    RunClock(cfg, steps[..i]);
    RunClock(cfg, steps[..i + 1]);
    RunClock(cfg, steps);
    ClockRuns(steps, i + 1);
  }

  // ----- Attribution is never to a stranger.

  /** Why a sample may be on an execution: their correlation is one and the same, or the
      sample carries none and its process and device function are the execution's. */
  predicate Belongs(ev: Evidence, p: PcSample, e: Exec) {
    if p.correlation.Present() then p.correlation == e.correlation
    else
      var ref := FunctionRef(p.crc, p.functionIndex);
      && ref in ev.names && p.correlation.pid != 0 && e.correlation.pid == p.correlation.pid
      && e.kernelName == ev.names[ref] != ""
  }

  ghost predicate AllBelong(ev: Evidence, share: seq<PcSample>, e: Exec) {
    forall p :: p in share ==> Belongs(ev, p, e)
  }

  lemma WaitingKeyed<K(!new)>(b: Bounds, q: Line<K>, key: K, keyOf: PcSample -> K, takes: PcSample -> bool, p: PcSample)
    requires forall x :: x in q ==> GroupSound(b, x, keyOf, takes)
    requires p in Waiting(q, key)
    ensures keyOf(p) == key && takes(p)
  {
    var g := Find(q, key).value;
    assert Item(key, g) in q;
  }

  lemma {:induction false} ExactBelongs(b: Bounds, q: Line<Correlation>, execs: seq<Exec>, ev: Evidence, i: nat)
    requires Sound(b, q, CorrelationOf, Correlated) && i < |execs|
    ensures AllBelong(ev, ExactShares(q, execs)[i], execs[i])
  {
    var n := |execs| - 1;
    if i < n {
      ExactBelongs(b, q, execs[..n], ev, i);
    } else {
      ExactConserves(q, execs[..n]);
      var mid := AfterExact(q, execs[..n]);
      forall p | p in Waiting(mid, execs[n].correlation) ensures Belongs(ev, p, execs[n]) {
        WaitingKeyed(b, mid, execs[n].correlation, CorrelationOf, Correlated, p);
      }
    }
  }

  lemma {:induction false} PlacedBelongs(b: Bounds, ev: Evidence, execs: seq<Exec>, served: seq<bool>, j: Join,
                                         keys: seq<ModuleKey>, i: nat)
    requires |served| == |execs| == |j.shares| == |j.attribs| && i < |execs|
    requires Sound(b, j.byModule, ModuleKeyFor, Uncorrelated) && AllBelong(ev, j.shares[i], execs[i])
    ensures AllBelong(ev, Placed(ev, execs, served, j, keys).shares[i], execs[i])
  {
    if keys != [] {
      var n := |keys| - 1;
      PlacedBelongs(b, ev, execs, served, j, keys[..n], i);
      PlacedConserves(ev, execs, served, j, keys[..n]);
      var mid, key := Placed(ev, execs, served, j, keys[..n]), keys[n];
      var outcome := Decide(ev, execs, served, key);
      if outcome.Joined? && outcome.target == i {
        DecideExact(ev, execs, served, key, i);
        forall p | p in Waiting(mid.byModule, key) ensures Belongs(ev, p, execs[i]) {
          WaitingKeyed(b, mid.byModule, key, ModuleKeyFor, Uncorrelated, p);
        }
      }
    }
  }

  /** In every snapshot of every run, each sample on an execution belongs to it: no
      sample crosses a process, a correlation or a kernel name. */
  lemma AttributionSound(cfg: Config, steps: seq<Step>, ev: Evidence, execs: seq<Exec>, keys: seq<ModuleKey>, i: nat)
    requires cfg.correlations.perGroup >= 1 && cfg.modules.perGroup >= 1 && i < |execs|
    ensures AllBelong(ev, Snapshot(ev, Run(cfg, steps).stores, execs, keys).shares[i], execs[i])
  {
    SamplesConserved(cfg, steps);
    var s := Run(cfg, steps).stores;
    ExactBelongs(cfg.correlations, s.byCorrelation, execs, ev, i);
    PlacedBelongs(cfg.modules, ev, execs, ExactServed(s.byCorrelation, execs),
                  Opening(s.byModule, ExactShares(s.byCorrelation, execs)), keys, i);
  }
}
