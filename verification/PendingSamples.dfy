/** A bounded store of PC samples waiting for their execution (gpu/timeline.go): groups
    that accumulate under a key, capped in size, aged by a horizon and bounded in number.
    The timeline keeps two, one keyed by correlation and one by module. */
module PendingSamples {
  import opened Machine
  import opened GpuEvents
  import opened BoundedFifo

  datatype Group = Group(samples: seq<PcSample>, anchorNs: uint64)

  type Line<K> = seq<Item<K, Group>>

  datatype Bounds = Bounds(groups: nat, perGroup: nat, horizonNs: uint64)

  // ----- The store as a plain queue of groups.

  function Size<K>(q: Line<K>): nat {
    if q == [] then 0 else |q[0].value.samples| + Size(q[1..])
  }

  function Find<K(==)>(q: Line<K>, key: K): (r: Option<Group>)
    ensures r.Some? <==> Holds(q, key)
    ensures r.Some? ==> Item(key, r.value) in q
  {
    if q == [] then None
    else if q[0].key == key then Some(q[0].value)
    else
      assert forall i :: 0 <= i < |q[1..]| ==> q[1..][i] == q[i + 1];
      Find(q[1..], key)
  }

  function Waiting<K(==)>(q: Line<K>, key: K): seq<PcSample> {
    match Find(q, key)
    case None => []
    case Some(g) => g.samples
  }

  function Grown(g: Group, p: PcSample): Group {
    Group(g.samples + [p], if p.timeNs > g.anchorNs then p.timeNs else g.anchorNs)
  }

  /** A live group accumulates where it stands; an absent one starts at the back. */
  function Accumulated<K(==)>(q: Line<K>, key: K, p: PcSample): Line<K> {
    match Find(q, key)
    case None => q + [Item(key, Grown(Group([], 0), p))]
    case Some(g) => Revalued(q, key, Grown(g, p))
  }

  predicate Stale(horizonNs: uint64, newestNs: uint64, g: Group) {
    horizonNs > 0 && g.anchorNs < newestNs && newestNs - g.anchorNs > horizonNs
  }

  function Recent<K>(horizonNs: uint64, newestNs: uint64, q: Line<K>): (left: Line<K>)
    ensures |left| <= |q|
  {
    if q == [] || !Stale(horizonNs, newestNs, q[0].value) then q else Recent(horizonNs, newestNs, q[1..])
  }

  function Newest<K>(groups: nat, q: Line<K>): (left: Line<K>)
    ensures |left| <= |q|
  {
    if |q| > groups then Newest(groups, q[1..]) else q
  }

  function Bounded<K>(b: Bounds, newestNs: uint64, q: Line<K>): Line<K> {
    Newest(b.groups, Recent(b.horizonNs, newestNs, q))
  }

  predicate Full<K(==)>(b: Bounds, q: Line<K>, key: K) {
    |Waiting(q, key)| >= b.perGroup
  }

  /** The groups after one sample, its own group full or not. */
  function Added<K(==)>(b: Bounds, newestNs: uint64, q: Line<K>, key: K, p: PcSample): Line<K> {
    Bounded(b, newestNs, if Full(b, q, key) then q else Accumulated(q, key, p))
  }

  // ----- What an emit counts as evicted, as the store counts it.

  /** The samples of the stale groups, dropped one group at a time. */
  function StaleSamples<K>(horizonNs: uint64, newestNs: uint64, q: Line<K>): nat {
    if q == [] || !Stale(horizonNs, newestNs, q[0].value) then 0
    else |q[0].value.samples| + StaleSamples(horizonNs, newestNs, q[1..])
  }

  /** The samples of the groups there is no room for. */
  function OverflowSamples<K>(groups: nat, q: Line<K>): nat {
    if |q| > groups then |q[0].value.samples| + OverflowSamples(groups, q[1..]) else 0
  }

  /** The sample itself if its group is full, then stale groups, then the overflow. */
  function Evictions<K(==)>(b: Bounds, newestNs: uint64, q: Line<K>, key: K, p: PcSample): nat {
    var grown := if Full(b, q, key) then q else Accumulated(q, key, p);
    (if Full(b, q, key) then 1 else 0)
    + StaleSamples(b.horizonNs, newestNs, grown)
    + OverflowSamples(b.groups, Recent(b.horizonNs, newestNs, grown))
  }

  // ----- Sizes.

  lemma {:induction false} SizeAppend<K(!new)>(q: Line<K>, r: Line<K>)
    ensures Size(q + r) == Size(q) + Size(r)
  {
    if q == [] {
      assert q + r == r;
    } else {
      assert (q + r)[1..] == q[1..] + r;
      SizeAppend(q[1..], r);
    }
  }

  lemma HoldsRest<K(!new), V(!new)>(q: seq<Item<K, V>>, key: K)
    requires q != []
    ensures Holds(q, key) <==> q[0].key == key || Holds(q[1..], key)
    ensures Distinct(q) ==> Distinct(q[1..]) && !Holds(q[1..], q[0].key)
  {
    assert forall i :: 0 <= i < |q[1..]| ==> q[1..][i] == q[i + 1];
    if Holds(q, key) && q[0].key != key {
      var i :| 0 <= i < |q| && q[i].key == key;
      assert q[1..][i - 1].key == key;
    }
  }

  lemma {:induction false} RevaluedElsewhere<K(!new)>(q: Line<K>, key: K, g: Group)
    requires !Holds(q, key)
    ensures Revalued(q, key, g) == q
  {
    if q != [] {
      HoldsRest(q, key);
      RevaluedElsewhere(q[1..], key, g);
    }
  }

  lemma {:induction false} SizeRevalued<K(!new)>(q: Line<K>, key: K, g: Group)
    requires Distinct(q) && Holds(q, key)
    ensures Size(Revalued(q, key, g)) == Size(q) - |Waiting(q, key)| + |g.samples|
  {
    HoldsRest(q, key);
    if q[0].key == key {
      HoldsRest(q, q[0].key);
      RevaluedElsewhere(q[1..], key, g);
    } else {
      SizeRevalued(q[1..], key, g);
    }
  }

  lemma {:induction false} SizeWithoutKey<K(!new)>(q: Line<K>, key: K)
    requires Distinct(q)
    ensures Size(Without(q, key)) == Size(q) - |Waiting(q, key)|
  {
    if q != [] {
      HoldsRest(q, q[0].key);
      if q[0].key == key {
        WithoutDrops(q[1..], key);
      } else {
        SizeWithoutKey(q[1..], key);
      }
    }
  }

  lemma SizeAccumulated<K(!new)>(q: Line<K>, key: K, p: PcSample)
    requires Distinct(q)
    ensures Size(Accumulated(q, key, p)) == Size(q) + 1
  {
    match Find(q, key)
    case None =>
      var x := Item(key, Grown(Group([], 0), p));
      SizeAppend(q, [x]);
      assert [x][1..] == [];
      assert Size([x]) == 1;
    case Some(g) => SizeRevalued(q, key, Grown(g, p));
  }

  lemma {:induction false} StaleCounted<K(!new)>(horizonNs: uint64, newestNs: uint64, q: Line<K>)
    ensures StaleSamples(horizonNs, newestNs, q) + Size(Recent(horizonNs, newestNs, q)) == Size(q)
  {
    if q != [] && Stale(horizonNs, newestNs, q[0].value) {
      StaleCounted(horizonNs, newestNs, q[1..]);
    }
  }

  lemma {:induction false} OverflowCounted<K(!new)>(groups: nat, q: Line<K>)
    ensures OverflowSamples(groups, q) + Size(Newest(groups, q)) == Size(q)
  {
    if |q| > groups {
      OverflowCounted(groups, q[1..]);
    }
  }

  /** The horizon takes exactly the stale prefix: every group dropped lies further back than
      it, and what is left starts with one that does not. */
  lemma {:induction false} RecentExact<K(!new)>(horizonNs: uint64, newestNs: uint64, q: Line<K>)
    ensures var left := Recent(horizonNs, newestNs, q);
      && left == q[|q| - |left|..]
      && (forall i :: 0 <= i < |q| - |left| ==> horizonNs > 0 && q[i].value.anchorNs + horizonNs < newestNs)
      && (left != [] && horizonNs > 0 ==> newestNs <= left[0].value.anchorNs + horizonNs)
  {
    if q != [] && Stale(horizonNs, newestNs, q[0].value) {
      RecentExact(horizonNs, newestNs, q[1..]);
      assert forall i :: 0 < i < |q| ==> q[i] == q[1..][i - 1];
    }
  }

  /** The room takes exactly the overflow: the newest groups that fit stay, all of them. */
  lemma {:induction false} NewestExact<K(!new)>(groups: nat, q: Line<K>)
    ensures Newest(groups, q) == q[|q| - Min(|q|, groups)..]
  {
    if |q| > groups {
      NewestExact(groups, q[1..]);
    }
  }

  /** The counter's increments are the samples that went missing: nothing more, nothing less. */
  lemma EvictionsCounted<K(!new)>(b: Bounds, newestNs: uint64, q: Line<K>, key: K, p: PcSample)
    requires Distinct(q)
    ensures Size(Added(b, newestNs, q, key, p)) + Evictions(b, newestNs, q, key, p) == Size(q) + 1
  {
    var grown := if Full(b, q, key) then q else Accumulated(q, key, p);
    SizeAccumulated(q, key, p);
    StaleCounted(b.horizonNs, newestNs, grown);
    OverflowCounted(b.groups, Recent(b.horizonNs, newestNs, grown));
  }

  // ----- The imperative store.

  lemma {:induction false} FindHeld<K(!new)>(ps: seq<Position<K>>, owner: map<K, Stamped<Group>>, key: K)
    requires Covered(ps, owner)
    ensures Find(Alive(ps, owner), key) == if key in owner then Some(owner[key].value) else None
  {
    AliveHolds(ps, owner, key);
    if key in owner {
      var q := Alive(ps, owner);
      var g := Find(q, key).value;
      var i :| 0 <= i < |q| && q[i] == Item(key, g);
    }
  }

  class PendingStore<K(==, !new)> {
    const bounds: Bounds
    const order: OrderedFIFO<K>
    var byKey: map<K, Stamped<Group>>
    var sampleTotal: int
    var evicted: nat

    ghost predicate Indexed()
      reads this`byKey, order
    {
      && bounds.perGroup >= 1
      && order.Valid()
      && Tracks(order.Rest(), order.num, byKey)
    }

    /** The groups held, oldest generation first. */
    ghost function Contents(): Line<K>
      requires order.Valid()
      reads this`byKey, order
    {
      Alive(order.Rest(), byKey)
    }

    /** The running total is the true one. */
    ghost predicate Valid()
      reads this`byKey, this`sampleTotal, order
    {
      Indexed() && sampleTotal == Size(Contents())
    }

    constructor (bounds: Bounds)
      requires bounds.perGroup >= 1
      ensures Valid() && Contents() == [] && evicted == 0 && fresh(order)
      ensures this.bounds == bounds
    {
      this.bounds := bounds;
      order := new OrderedFIFO();
      byKey, sampleTotal, evicted := map[], 0, 0;
    }

    /** Superseded and consumed positions are invisible. */
    lemma ContentsExact(key: K)
      requires Indexed()
      ensures Distinct(Contents()) && |Contents()| == |byKey|
      ensures Find(Contents(), key) == if key in byKey then Some(byKey[key].value) else None
    {
      QueueSize(order.Rest(), order.num, byKey);
      QueueDistinct(order.Rest(), order.num, byKey);
      FindHeld(order.Rest(), byKey, key);
    }

    /** One sample in: kept, or refused by its full group and counted. */
    method Add(key: K, p: PcSample, newestNs: uint64)
      requires Valid()
      modifies this, order
      ensures Valid()
      ensures Contents() == Added(bounds, newestNs, old(Contents()), key, p)
      ensures evicted == old(evicted) + Evictions(bounds, newestNs, old(Contents()), key, p)
    {
      ContentsExact(key);
      if key in byKey && |byKey[key].value.samples| >= bounds.perGroup {
        evicted := evicted + 1;
      } else {
        Append(key, p);
      }
      EvictHorizon(newestNs);
      EvictCardinality();
    }

    method Append(key: K, p: PcSample)
      requires Valid()
      modifies this`byKey, this`sampleTotal, order
      ensures Valid()
      ensures Contents() == Accumulated(old(Contents()), key, p)
      ensures sampleTotal == old(sampleTotal) + 1
    {
      ContentsExact(key);
      SizeAccumulated(Contents(), key, p);
      if key in byKey {
        Extend(key, p);
      } else {
        Start(key, p);
      }
      sampleTotal := sampleTotal + 1;
    }

    method Extend(key: K, p: PcSample)
      requires Indexed() && key in byKey
      modifies this`byKey
      ensures Indexed()
      ensures Contents() == Revalued(old(Contents()), key, Grown(old(byKey)[key].value, p))
    {
      var e := byKey[key];
      var g := Grown(e.value, p);
      UpdateRevalues(order.Rest(), byKey, key, g);
      UpdateTracks(order.Rest(), order.num, byKey, key, g);
      byKey := byKey[key := Stamped(e.num, g)];
    }

    method Start(key: K, p: PcSample)
      requires Indexed() && key !in byKey
      modifies this`byKey, order
      ensures Indexed()
      ensures Contents() == old(Contents()) + [Item(key, Grown(Group([], 0), p))]
    {
      var g := Grown(Group([], 0), p);
      AliveHolds(order.Rest(), byKey, key);
      WithoutDrops(Contents(), key);
      InsertQueues(order.Rest(), order.num, byKey, key, g);
      InsertTracks(order.Rest(), order.num, byKey, key, g);
      var num := order.Insert(key);
      byKey := byKey[key := Stamped(num, g)];
    }

    method EvictHorizon(newestNs: uint64)
      requires Valid()
      modifies this, order
      ensures Valid()
      ensures Contents() == Recent(bounds.horizonNs, newestNs, old(Contents()))
      ensures evicted == old(evicted) + StaleSamples(bounds.horizonNs, newestNs, old(Contents()))
    {
      var more := bounds.horizonNs > 0;
      while more
        invariant Valid()
        invariant Recent(bounds.horizonNs, newestNs, Contents()) == Recent(bounds.horizonNs, newestNs, old(Contents()))
        invariant more ==> bounds.horizonNs > 0
        invariant !more ==> Recent(bounds.horizonNs, newestNs, Contents()) == Contents()
        invariant evicted + StaleSamples(bounds.horizonNs, newestNs, Contents())
          == old(evicted) + StaleSamples(bounds.horizonNs, newestNs, old(Contents()))
        invariant !more ==> StaleSamples(bounds.horizonNs, newestNs, Contents()) == 0
        decreases |byKey|, more
      {
        more := EvictIfStale(newestNs);
      }
    }

    method EvictIfStale(newestNs: uint64) returns (gone: bool)
      requires Valid() && bounds.horizonNs > 0
      modifies this, order
      ensures Valid()
      ensures var q := old(Contents());
        && gone == (q != [] && Stale(bounds.horizonNs, newestNs, q[0].value))
        && Contents() == (if gone then q[1..] else q)
        && evicted == old(evicted) + (if gone then |q[0].value.samples| else 0)
      ensures gone ==> |byKey| < old(|byKey|)
      ensures !gone ==> byKey == old(byKey)
    {
      var cur := PeekOldest();
      if cur == None {
        return false;
      }
      if newestNs <= cur.value.anchorNs || newestNs - cur.value.anchorNs <= bounds.horizonNs {
        return false;
      }
      EvictOldest();
      gone := true;
    }

    method EvictCardinality()
      requires Valid()
      modifies this, order
      ensures Valid()
      ensures Contents() == Newest(bounds.groups, old(Contents()))
      ensures evicted == old(evicted) + OverflowSamples(bounds.groups, old(Contents()))
    {
      QueueSize(order.Rest(), order.num, byKey);
      while |byKey| > bounds.groups
        invariant Valid() && |Contents()| == |byKey|
        invariant Newest(bounds.groups, Contents()) == Newest(bounds.groups, old(Contents()))
        invariant evicted + OverflowSamples(bounds.groups, Contents())
          == old(evicted) + OverflowSamples(bounds.groups, old(Contents()))
        decreases |byKey|
      {
        EvictOldest();
      }
    }

    /** Drops the oldest group whole, its samples counted as evicted. */
    method EvictOldest()
      requires Valid() && |byKey| > 0
      modifies this, order
      ensures Valid() && |byKey| == old(|byKey|) - 1
      ensures |old(Contents())| > 0 && Contents() == old(Contents())[1..]
      ensures evicted == old(evicted) + |old(Contents())[0].value.samples|
    {
      var g := PopOldest();
      sampleTotal := sampleTotal - |g.samples|;
      evicted := evicted + |g.samples|;
    }

    method PopOldest() returns (g: Group)
      requires Indexed() && |byKey| > 0
      modifies this`byKey, order
      ensures Indexed() && |byKey| == old(|byKey|) - 1
      ensures |old(Contents())| > 0 && Contents() == old(Contents())[1..] && g == old(Contents())[0].value
    {
      EvictStep(order.Rest(), order.num, byKey);
      var key := order.EvictOldestLive(byKey);
      g := byKey[key.value].value;
      byKey := byKey - {key.value};
    }

    method PeekOldest() returns (g: Option<Group>)
      requires Valid()
      modifies order
      ensures Valid() && Contents() == old(Contents())
      ensures g == if Contents() == [] then None else Some(Contents()[0].value)
      ensures g == None <==> |byKey| == 0
    {
      EvictStep(order.Rest(), order.num, byKey);
      var key := order.PeekOldestLive(byKey);
      g := if key == None then None else Some(byKey[key.value].value);
    }

    /** A snapshot takes a whole group; its position stays behind, superseded. */
    method Take(key: K) returns (g: Option<Group>)
      requires Valid()
      modifies this`byKey, this`sampleTotal
      ensures Valid()
      ensures g == Find(old(Contents()), key) && Contents() == Without(old(Contents()), key)
      ensures g.Some? <==> key in old(byKey)
      ensures byKey == old(byKey) - {key}
    {
      ContentsExact(key);
      SizeWithoutKey(Contents(), key);
      DropSkips(order.Rest(), byKey, key);
      if key !in byKey {
        assert byKey - {key} == byKey;
        return None;
      }
      g := Some(byKey[key].value);
      byKey := byKey - {key};
      sampleTotal := sampleTotal - |g.value.samples|;
    }
  }
}
