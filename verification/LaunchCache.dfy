/** The bounded cache of recent launches (gpu/launchcache.go): a class over a FIFO with
    lazy deletion, refining a plain queue, and what every run of that queue keeps. */
module LaunchCache {
  import opened Machine
  import opened GpuEvents
  import opened BoundedFifo

  const DEFAULT_CAPACITY: int := 65536
  const DEFAULT_MAX_ADVANCE_NS: uint64 := 60_000_000_000

  datatype Config = Config(capacity: int, horizonNs: uint64, maxAdvanceNs: uint64)
  {
    function Normalized(): (r: Config)
      ensures r.capacity == (if capacity <= 0 then 65536 else capacity) && r.horizonNs == horizonNs
      ensures r.maxAdvanceNs == if maxAdvanceNs == 0 then 60_000_000_000 else maxAdvanceNs
    {
      Config(if capacity <= 0 then DEFAULT_CAPACITY else capacity, horizonNs,
             if maxAdvanceNs == 0 then DEFAULT_MAX_ADVANCE_NS else maxAdvanceNs)
    }
  }

  datatype Stats = Stats(evictedCapacity: nat, evictedCapacityUnjoined: nat, evictedHorizon: nat,
                         replaced: nat, anomalousTimestamp: nat)

  // ----- The plain queue.

  datatype Held = Held(launch: Launch, joined: bool)

  type Line = seq<Item<Correlation, Held>>

  /** The cache a reader would have drawn: the launches held, oldest Put first. */
  datatype Cache = Cache(queue: Line, newestNs: uint64, stats: Stats)

  const EMPTY := Cache([], 0, Stats(0, 0, 0, 0, 0))

  function Observe(cfg: Config, c: Cache, timeNs: uint64): Cache {
    if timeNs <= c.newestNs then c
    else if c.newestNs != 0 && timeNs - c.newestNs > cfg.maxAdvanceNs then
      c.(stats := c.stats.(anomalousTimestamp := c.stats.anomalousTimestamp + 1))
    else c.(newestNs := timeNs)
  }

  function Enqueue(c: Cache, l: Launch): Cache {
    var k := l.correlation;
    c.(queue := Without(c.queue, k) + [Item(k, Held(l, false))],
       stats := if Holds(c.queue, k) then c.stats.(replaced := c.stats.replaced + 1) else c.stats)
  }

  predicate Stale(cfg: Config, newestNs: uint64, l: Launch) {
    cfg.horizonNs > 0 && l.timeNs < newestNs && newestNs - l.timeNs > cfg.horizonNs
  }

  /** What is left once the launches past the horizon are gone, oldest first, stopping
      at the first that is not. */
  function Recent(cfg: Config, newestNs: uint64, q: Line): (left: Line)
    ensures |left| <= |q|
  {
    if q == [] || !Stale(cfg, newestNs, q[0].value.launch) then q else Recent(cfg, newestNs, q[1..])
  }

  /** The newest launches, as many as there is room for. */
  function Newest(capacity: nat, q: Line): (left: Line)
    ensures |left| <= |q|
  {
    if |q| > capacity then Newest(capacity, q[1..]) else q
  }

  /** How many of the launches there is no room for were never joined. */
  function Unjoined(capacity: nat, q: Line): nat {
    if |q| > capacity then (if q[0].value.joined then 0 else 1) + Unjoined(capacity, q[1..]) else 0
  }

  function DropStale(cfg: Config, c: Cache): Cache {
    var left := Recent(cfg, c.newestNs, c.queue);
    c.(queue := left, stats := c.stats.(evictedHorizon := c.stats.evictedHorizon + |c.queue| - |left|))
  }

  function Trim(capacity: nat, c: Cache): Cache {
    var left := Newest(capacity, c.queue);
    c.(queue := left,
       stats := c.stats.(evictedCapacity := c.stats.evictedCapacity + |c.queue| - |left|,
                         evictedCapacityUnjoined := c.stats.evictedCapacityUnjoined + Unjoined(capacity, c.queue)))
  }

  function AfterPut(cfg: Config, c: Cache, l: Launch): Cache
    requires cfg.capacity >= 1
  {
    Trim(cfg.capacity, DropStale(cfg, Enqueue(Observe(cfg, c, l.timeNs), l)))
  }

  /** An execution found the launch. */
  function Join(c: Cache, id: Correlation): Cache {
    c.(queue := Joined(c.queue, id))
  }

  function Joined(q: Line, id: Correlation): (r: Line)
    ensures |r| == |q|
    ensures forall i :: 0 <= i < |q| ==>
      r[i] == if q[i].key == id then q[i].(value := q[i].value.(joined := true)) else q[i]
  {
    if q == [] then []
    else [if q[0].key == id then q[0].(value := q[0].value.(joined := true)) else q[0]] + Joined(q[1..], id)
  }

  // ----- The imperative cache.

  lemma {:induction false} MarkJoins(ps: seq<Position<Correlation>>, owner: map<Correlation, Stamped<Held>>,
                                     id: Correlation)
    ensures Joined(Alive(ps, owner), id)
      == Alive(ps, if id in owner then owner[id := owner[id].(value := owner[id].value.(joined := true))] else owner)
  {
    if ps != [] {
      MarkJoins(ps[1..], owner, id);
    }
  }

  class LaunchStore {
    const cfg: Config
    const order: OrderedFIFO<Correlation>
    var byCorr: map<Correlation, Stamped<Held>>
    var newestNs: uint64
    var evictedCapacity: nat
    var evictedCapacityUnjoined: nat
    var evictedHorizon: nat
    var replaced: nat
    var anomalousTimestamp: nat

    ghost predicate Valid()
      reads this`byCorr, order
    {
      && cfg.capacity >= 1
      && order.Valid()
      && Tracks(order.Rest(), order.num, byCorr)
    }

    /** The launches held, oldest Put first. */
    ghost function Contents(): Line
      requires order.Valid()
      reads this`byCorr, order
    {
      Alive(order.Rest(), byCorr)
    }

    ghost function Model(): Cache
      requires order.Valid()
      reads this, order
    {
      Cache(Contents(), newestNs,
            Stats(evictedCapacity, evictedCapacityUnjoined, evictedHorizon, replaced, anomalousTimestamp))
    }

    constructor (cfg: Config)
      ensures Valid() && Model() == EMPTY && fresh(order)
      ensures this.cfg == cfg.Normalized()
    {
      this.cfg := cfg.Normalized();
      order := new OrderedFIFO();
      byCorr, newestNs := map[], 0;
      evictedCapacity, evictedCapacityUnjoined, evictedHorizon, replaced, anomalousTimestamp := 0, 0, 0, 0, 0;
    }

    /** Superseded and consumed positions are invisible: the queue lists each held launch once. */
    lemma ModelExact(id: Correlation)
      requires Valid()
      ensures Distinct(Contents()) && |Contents()| == |byCorr|
      ensures Holds(Contents(), id) <==> id in byCorr
    {
      QueueSize(order.Rest(), order.num, byCorr);
      QueueDistinct(order.Rest(), order.num, byCorr);
      AliveHolds(order.Rest(), byCorr, id);
    }

    method Put(l: Launch)
      requires Valid()
      modifies this, order
      ensures Valid()
      ensures Model() == AfterPut(cfg, old(Model()), l)
    {
      ObserveTimestamp(l.timeNs);
      InsertLaunch(l);
      EvictHorizon();
      EvictCapacity();
    }

    method ObserveTimestamp(timeNs: uint64)
      requires Valid()
      modifies this`newestNs, this`anomalousTimestamp
      ensures Model() == Observe(cfg, old(Model()), timeNs)
    {
      if timeNs <= newestNs {
        return;
      }
      if newestNs != 0 && timeNs - newestNs > cfg.maxAdvanceNs {
        anomalousTimestamp := anomalousTimestamp + 1;
        return;
      }
      newestNs := timeNs;
    }

    method InsertLaunch(l: Launch)
      requires Valid()
      modifies this`byCorr, this`replaced, order
      ensures Valid()
      ensures Contents() == Without(old(Contents()), l.correlation) + [Item(l.correlation, Held(l, false))]
      ensures replaced == old(replaced) + if old(Holds(Contents(), l.correlation)) then 1 else 0
    {
      AliveHolds(order.Rest(), byCorr, l.correlation);
      InsertQueues(order.Rest(), order.num, byCorr, l.correlation, Held(l, false));
      InsertTracks(order.Rest(), order.num, byCorr, l.correlation, Held(l, false));
      var num := order.Insert(l.correlation);
      if l.correlation in byCorr {
        replaced := replaced + 1;
      }
      byCorr := byCorr[l.correlation := Stamped(num, Held(l, false))];
    }

    /** Deletes the oldest launch. */
    method PopOldest() returns (e: Held)
      requires Valid() && |byCorr| > 0
      modifies this`byCorr, order
      ensures Valid() && |byCorr| == old(|byCorr|) - 1
      ensures var q := old(Model()).queue;
        |q| > 0 && e == q[0].value && Contents() == q[1..]
    {
      EvictStep(order.Rest(), order.num, byCorr);
      var id := order.EvictOldestLive(byCorr);
      e := byCorr[id.value].value;
      byCorr := byCorr - {id.value};
    }

    /** The oldest launch, dead positions passed on the way. */
    method PeekOldest() returns (e: Option<Held>)
      requires Valid()
      modifies order
      ensures Valid() && Contents() == old(Model()).queue
      ensures var q := Contents();
        && (e == None <==> |byCorr| == 0)
        && (e == None <==> q == [])
        && (e.Some? ==> e.value == q[0].value)
    {
      EvictStep(order.Rest(), order.num, byCorr);
      var id := order.PeekOldestLive(byCorr);
      e := if id == None then None else Some(byCorr[id.value].value);
    }

    method EvictHorizon()
      requires Valid()
      modifies this`byCorr, this`evictedHorizon, order
      ensures Valid()
      ensures Contents() == Recent(cfg, newestNs, old(Contents()))
      ensures evictedHorizon + |Contents()| == old(evictedHorizon + |Contents()|)
    {
      var more := cfg.horizonNs > 0;
      while more
        invariant Valid()
        invariant Recent(cfg, newestNs, Contents()) == Recent(cfg, newestNs, old(Contents()))
        invariant more ==> cfg.horizonNs > 0
        invariant !more ==> Recent(cfg, newestNs, Contents()) == Contents()
        invariant evictedHorizon + |Contents()| == old(evictedHorizon + |Contents()|)
        decreases |byCorr|, more
      {
        more := EvictIfStale();
      }
    }

    /** Deletes the oldest launch if it is past the horizon. */
    method EvictIfStale() returns (evicted: bool)
      requires Valid() && cfg.horizonNs > 0
      modifies this`byCorr, this`evictedHorizon, order
      ensures Valid()
      ensures var q := old(Contents());
        && evicted == (q != [] && Stale(cfg, newestNs, q[0].value.launch))
        && Contents() == (if evicted then q[1..] else q)
      ensures evictedHorizon == old(evictedHorizon) + if evicted then 1 else 0
      ensures evicted ==> |byCorr| < old(|byCorr|)
      ensures !evicted ==> byCorr == old(byCorr)
    {
      var cur := PeekOldest();
      if cur == None {
        return false;
      }
      if newestNs <= cur.value.launch.timeNs || newestNs - cur.value.launch.timeNs <= cfg.horizonNs {
        return false;
      }
      var e := PopOldest();
      evictedHorizon := evictedHorizon + 1;
      evicted := true;
    }

    method EvictCapacity()
      requires Valid()
      modifies this`byCorr, this`evictedCapacity, this`evictedCapacityUnjoined, order
      ensures Valid()
      ensures Contents() == Newest(cfg.capacity, old(Contents()))
      ensures evictedCapacity + |Contents()| == old(evictedCapacity + |Contents()|)
      ensures evictedCapacityUnjoined == old(evictedCapacityUnjoined + Unjoined(cfg.capacity, Contents()))
    {
      QueueSize(order.Rest(), order.num, byCorr);
      while |byCorr| > cfg.capacity
        invariant Valid() && |Contents()| == |byCorr|
        invariant Newest(cfg.capacity, Contents()) == Newest(cfg.capacity, old(Contents()))
        invariant evictedCapacity + |Contents()| == old(evictedCapacity + |Contents()|)
        invariant evictedCapacityUnjoined + Unjoined(cfg.capacity, Contents())
          == old(evictedCapacityUnjoined + Unjoined(cfg.capacity, Contents()))
        decreases |byCorr|
      {
        EvictForRoom();
      }
    }

    method EvictForRoom()
      requires Valid() && |byCorr| > 0
      modifies this`byCorr, this`evictedCapacity, this`evictedCapacityUnjoined, order
      ensures Valid() && |byCorr| == old(|byCorr|) - 1
      ensures |old(Contents())| > 0 && Contents() == old(Contents())[1..]
      ensures evictedCapacity == old(evictedCapacity) + 1
      ensures evictedCapacityUnjoined
        == old(evictedCapacityUnjoined) + if old(Contents())[0].value.joined then 0 else 1
    {
      var e := PopOldest();
      if !e.joined {
        evictedCapacityUnjoined := evictedCapacityUnjoined + 1;
      }
      evictedCapacity := evictedCapacity + 1;
    }

    method Get(id: Correlation) returns (l: Option<Launch>)
      requires Valid()
      modifies this`byCorr
      ensures Valid()
      ensures Model() == Join(old(Model()), id)
      ensures l == if id in old(byCorr) then Some(old(byCorr)[id].value.launch) else None
    {
      MarkJoins(order.Rest(), byCorr, id);
      if id !in byCorr {
        return None;
      }
      var e := byCorr[id].value;
      if !e.joined {
        UpdateTracks(order.Rest(), order.num, byCorr, id, e.(joined := true));
        byCorr := byCorr[id := Stamped(byCorr[id].num, e.(joined := true))];
      } else {
        assert byCorr == byCorr[id := Stamped(byCorr[id].num, e)];
      }
      l := Some(e.launch);
    }

    method MarkJoined(id: Correlation)
      requires Valid()
      modifies this`byCorr
      ensures Valid()
      ensures Model() == Join(old(Model()), id)
    {
      var l := Get(id);
    }
  }

  // ----- Whole runs.

  datatype Op = PutOp(launch: Launch) | GetOp(id: Correlation) | MarkJoinedOp(id: Correlation)

  function Step(cfg: Config, c: Cache, op: Op): Cache
    requires cfg.capacity >= 1
  {
    match op
    case PutOp(l) => AfterPut(cfg, c, l)
    case GetOp(id) => Join(c, id)
    case MarkJoinedOp(id) => Join(c, id)
  }

  function Run(cfg: Config, ops: seq<Op>): Cache
    requires cfg.capacity >= 1
  {
    if ops == [] then EMPTY else Step(cfg, Run(cfg, ops[..|ops| - 1]), ops[|ops| - 1])
  }

  function Puts(ops: seq<Op>): nat {
    if ops == [] then 0 else Puts(ops[..|ops| - 1]) + if ops[|ops| - 1].PutOp? then 1 else 0
  }

  /** Position of the latest Put of a correlation, or -1. */
  function LastPut(ops: seq<Op>, k: Correlation): (r: int)
    ensures -1 <= r < |ops|
    ensures r >= 0 ==> ops[r].PutOp? && ops[r].launch.correlation == k
  {
    if ops == [] then -1
    else
      var n := |ops| - 1;
      if ops[n].PutOp? && ops[n].launch.correlation == k then n else LastPut(ops[..n], k)
  }

  /** Whether an execution found the launch after its latest Put: said of the history. */
  function JoinedSince(ops: seq<Op>, k: Correlation): bool {
    if ops == [] then false
    else
      match ops[|ops| - 1]
      case PutOp(l) => l.correlation != k && JoinedSince(ops[..|ops| - 1], k)
      case GetOp(id) => id == k || JoinedSince(ops[..|ops| - 1], k)
      case MarkJoinedOp(id) => id == k || JoinedSince(ops[..|ops| - 1], k)
  }

  /** The launch the last operation pushed out for want of room, if any. */
  function CapacityVictim(cfg: Config, c: Cache, op: Op): Option<Correlation>
    requires cfg.capacity >= 1
  {
    if op.PutOp? then
      var full := DropStale(cfg, Enqueue(Observe(cfg, c, op.launch.timeNs), op.launch)).queue;
      if |full| > cfg.capacity then Some(full[0].key) else None
    else None
  }

  /** Launches pushed out before any execution found them: said of the history. */
  function LostAttributions(cfg: Config, ops: seq<Op>): nat
    requires cfg.capacity >= 1
  {
    if ops == [] then 0
    else
      var before := ops[..|ops| - 1];
      var victim := CapacityVictim(cfg, Run(cfg, before), ops[|ops| - 1]);
      LostAttributions(cfg, before) + if victim.Some? && !JoinedSince(ops, victim.value) then 1 else 0
  }

  /** An item is the latest Put of its key, with the joins since. */
  predicate ItemCurrent(ops: seq<Op>, x: Item<Correlation, Held>) {
    && LastPut(ops, x.key) >= 0
    && ops[LastPut(ops, x.key)].launch == x.value.launch
    && x.value.joined == JoinedSince(ops, x.key)
  }

  /** The queue is the latest Puts in their order. */
  ghost predicate Current(ops: seq<Op>, q: Line) {
    && (forall x :: x in q ==> ItemCurrent(ops, x))
    && InPutOrder(ops, q)
  }

  ghost predicate InPutOrder(ops: seq<Op>, q: Line) {
    forall i, j :: 0 <= i < j < |q| ==> LastPut(ops, q[i].key) < LastPut(ops, q[j].key)
  }

  ghost predicate Accounted(cfg: Config, ops: seq<Op>, c: Cache)
    requires cfg.capacity >= 1
  {
    && |c.queue| <= cfg.capacity
    && Puts(ops) == |c.queue| + c.stats.replaced + c.stats.evictedCapacity + c.stats.evictedHorizon
    && c.stats.evictedCapacityUnjoined == LostAttributions(cfg, ops)
  }

  lemma {:induction false} WithoutKeepsOrder(ops: seq<Op>, q: Line, key: Correlation)
    requires InPutOrder(ops, q)
    ensures InPutOrder(ops, Without(q, key))
  {
    if q != [] {
      WithoutKeepsOrder(ops, q[1..], key);
      if q[0].key != key {
        WithoutAfter(ops, q, key);
        ConsInOrder(ops, q[0], Without(q[1..], key));
      }
    }
  }

  ghost predicate AllAfter(ops: seq<Op>, x: Item<Correlation, Held>, q: Line) {
    forall y :: y in q ==> LastPut(ops, x.key) < LastPut(ops, y.key)
  }

  lemma WithoutAfter(ops: seq<Op>, q: Line, key: Correlation)
    requires q != [] && InPutOrder(ops, q)
    ensures AllAfter(ops, q[0], Without(q[1..], key))
  {
    WithoutDrops(q[1..], key);
    forall y | y in q[1..] ensures LastPut(ops, q[0].key) < LastPut(ops, y.key) {
    }
  }

  lemma ConsInOrder(ops: seq<Op>, x: Item<Correlation, Held>, q: Line)
    requires AllAfter(ops, x, q) && InPutOrder(ops, q)
    ensures InPutOrder(ops, [x] + q)
  {
  }

  lemma OthersUnmoved(ops: seq<Op>, op: Op, k: Correlation)
    requires op.PutOp? ==> op.launch.correlation != k
    ensures LastPut(ops + [op], k) == LastPut(ops, k)
    ensures JoinedSince(ops + [op], k) == (JoinedSince(ops, k) || (!op.PutOp? && op.id == k))
    ensures LastPut(ops, k) >= 0 ==> (ops + [op])[LastPut(ops, k)] == ops[LastPut(ops, k)]
  {
    assert (ops + [op])[..|ops|] == ops;
  }

  lemma EnqueueCurrent(ops: seq<Op>, q: Line, l: Launch)
    requires Current(ops, q)
    ensures Current(ops + [PutOp(l)], Without(q, l.correlation) + [Item(l.correlation, Held(l, false))])
  {
    var all := ops + [PutOp(l)];
    WithoutKeepsOrder(ops, q, l.correlation);
    WithoutDrops(q, l.correlation);
    var r := Without(q, l.correlation);
    forall i | 0 <= i < |r|
      ensures ItemCurrent(all, r[i]) && LastPut(all, r[i].key) == LastPut(ops, r[i].key)
    {
      assert r[i] in r;
      OthersUnmoved(ops, PutOp(l), r[i].key);
    }
    assert LastPut(all, l.correlation) == |ops|;
  }

  lemma JoinCurrent(ops: seq<Op>, q: Line, op: Op)
    requires Current(ops, q) && !op.PutOp?
    ensures Current(ops + [op], Joined(q, op.id))
  {
    var all, r := ops + [op], Joined(q, op.id);
    forall i | 0 <= i < |q|
      ensures ItemCurrent(all, r[i]) && LastPut(all, r[i].key) == LastPut(ops, q[i].key)
    {
      assert q[i] in q;
      OthersUnmoved(ops, op, q[i].key);
    }
  }

  lemma CurrentDistinct(ops: seq<Op>, q: Line)
    requires InPutOrder(ops, q)
    ensures Distinct(q)
  {
    forall i, j | 0 <= i < j < |q| ensures q[i].key != q[j].key {
      assert LastPut(ops, q[i].key) < LastPut(ops, q[j].key);
    }
  }

  lemma EnqueueSize(q: Line, l: Launch)
    requires Distinct(q)
    ensures |Without(q, l.correlation)| + 1 == |q| + if Holds(q, l.correlation) then 0 else 1
  {
    WithoutDistinct(q, l.correlation);
  }

  lemma {:induction false} RecentCurrent(cfg: Config, newestNs: uint64, ops: seq<Op>, q: Line)
    requires Current(ops, q)
    ensures Current(ops, Recent(cfg, newestNs, q))
  {
    if q != [] && Stale(cfg, newestNs, q[0].value.launch) {
      RecentCurrent(cfg, newestNs, ops, q[1..]);
    }
  }

  /** The horizon takes exactly the stale prefix: everything dropped was stale, and what
      is left starts with a launch that is not. */
  lemma {:induction false} RecentExact(cfg: Config, newestNs: uint64, q: Line)
    ensures var left := Recent(cfg, newestNs, q);
      && |left| <= |q| && left == q[|q| - |left|..]
      && (forall i :: 0 <= i < |q| - |left| ==>
            cfg.horizonNs > 0 && q[i].value.launch.timeNs + cfg.horizonNs < newestNs)
      && (left != [] && cfg.horizonNs > 0 ==> newestNs <= left[0].value.launch.timeNs + cfg.horizonNs)
  {
    if q != [] && Stale(cfg, newestNs, q[0].value.launch) {
      RecentExact(cfg, newestNs, q[1..]);
      assert forall i :: 0 < i < |q| ==> q[i] == q[1..][i - 1];
    }
  }

  /** At most one launch over, the oldest goes, and what it costs is what the history says. */
  lemma {:induction false} NewestCurrent(capacity: nat, ops: seq<Op>, q: Line)
    requires Current(ops, q) && |q| <= capacity + 1
    ensures Current(ops, Newest(capacity, q)) && |Newest(capacity, q)| == Min(|q|, capacity)
    ensures Unjoined(capacity, q) == if |q| > capacity && !JoinedSince(ops, q[0].key) then 1 else 0
  {
    if |q| > capacity {
      assert q[0] in q;
      assert |q[1..]| == capacity;
    }
  }

  lemma PutAccounted(cfg: Config, ops: seq<Op>, c: Cache, l: Launch, queued: Cache, kept: Line)
    requires cfg.capacity >= 1 && c == Run(cfg, ops) && Accounted(cfg, ops, c)
    requires queued == Enqueue(Observe(cfg, c, l.timeNs), l)
    requires |queued.queue| == |c.queue| + if Holds(c.queue, l.correlation) then 0 else 1
    requires kept == Recent(cfg, queued.newestNs, queued.queue)
    requires |Newest(cfg.capacity, kept)| == Min(|kept|, cfg.capacity)
    requires Unjoined(cfg.capacity, kept)
      == if |kept| > cfg.capacity && !JoinedSince(ops + [PutOp(l)], kept[0].key) then 1 else 0
    ensures Accounted(cfg, ops + [PutOp(l)], AfterPut(cfg, c, l))
  {
    assert (ops + [PutOp(l)])[..|ops|] == ops;
  }

  lemma PutCurrent(cfg: Config, ops: seq<Op>, c: Cache, l: Launch)
    requires cfg.capacity >= 1 && c == Run(cfg, ops) && Current(ops, c.queue) && Accounted(cfg, ops, c)
    ensures Current(ops + [PutOp(l)], AfterPut(cfg, c, l).queue)
    ensures Accounted(cfg, ops + [PutOp(l)], AfterPut(cfg, c, l))
  {
    var queued := Enqueue(Observe(cfg, c, l.timeNs), l);
    var kept := Recent(cfg, queued.newestNs, queued.queue);
    CurrentDistinct(ops, c.queue);
    EnqueueSize(c.queue, l);
    EnqueueCurrent(ops, c.queue, l);
    RecentCurrent(cfg, queued.newestNs, ops + [PutOp(l)], queued.queue);
    NewestCurrent(cfg.capacity, ops + [PutOp(l)], kept);
    PutAccounted(cfg, ops, c, l, queued, kept);
  }

  /** Over every run of puts, gets and joins: the cache is the queue of live launches
      ordered by latest Put, never over capacity, with every Put accounted for exactly
      once and the unjoined evictions exactly the attributions lost. */
  lemma {:induction false} RunHonest(cfg: Config, ops: seq<Op>)
    requires cfg.capacity >= 1
    ensures Current(ops, Run(cfg, ops).queue)
    ensures Accounted(cfg, ops, Run(cfg, ops))
  {
    if ops != [] {
      var before, op := ops[..|ops| - 1], ops[|ops| - 1];
      RunHonest(cfg, before);
      assert ops == before + [op];
      var c := Run(cfg, before);
      if op.PutOp? {
        PutCurrent(cfg, before, c, op.launch);
      } else {
        JoinCurrent(before, c.queue, op);
      }
    }
  }

  // ----- What is lost, and only that.

  /** The correlations put after the latest Put of one. */
  function PutSince(ops: seq<Op>, k: Correlation): set<Correlation> {
    if ops == [] then {}
    else
      var last := ops[|ops| - 1];
      if !last.PutOp? then PutSince(ops[..|ops| - 1], k)
      else if last.launch.correlation == k then {}
      else PutSince(ops[..|ops| - 1], k) + {last.launch.correlation}
  }

  /** Why a launch that was put is not there: as many others were put since as there is room
      for, or it lies further back than the horizon. */
  ghost predicate Excused(cfg: Config, ops: seq<Op>, newestNs: uint64, k: Correlation) {
    || |PutSince(ops, k)| >= cfg.capacity
    || (LastPut(ops, k) >= 0 && cfg.horizonNs > 0
        && ops[LastPut(ops, k)].launch.timeNs + cfg.horizonNs < newestNs)
  }

  lemma {:induction false} SinceLater(ops: seq<Op>, k: Correlation, other: Correlation)
    requires LastPut(ops, k) < LastPut(ops, other)
    ensures other in PutSince(ops, k)
  {
    if !(ops[|ops| - 1].PutOp? && ops[|ops| - 1].launch.correlation == other) {
      SinceLater(ops[..|ops| - 1], k, other);
    }
  }

  lemma {:induction false} KeysSize(q: Line, keys: set<Correlation>)
    requires Distinct(q) && forall x :: x in q ==> x.key in keys
    ensures |q| <= |keys|
  {
    if q != [] {
      var rest := q[1..];
      assert forall x :: x in rest ==> x in q;
      forall x | x in rest ensures x.key in keys - {q[0].key} {
        var i :| 0 <= i < |rest| && rest[i] == x;
        assert q[i + 1] == x;
      }
      KeysSize(rest, keys - {q[0].key});
    }
  }

  /** What was pushed out for want of room had as many put after it. */
  lemma CrowdedOut(cfg: Config, ops: seq<Op>, q: Line)
    requires Current(ops, q) && cfg.capacity >= 1 && |q| > cfg.capacity
    ensures |PutSince(ops, q[0].key)| >= cfg.capacity
  {
    var rest := q[1..];
    CurrentDistinct(ops, q);
    forall x | x in rest ensures x.key in PutSince(ops, q[0].key) {
      var i :| 0 <= i < |rest| && rest[i] == x;
      assert q[i + 1] == x;
      SinceLater(ops, q[0].key, x.key);
    }
    KeysSize(rest, PutSince(ops, q[0].key));
  }

  ghost predicate Retained(cfg: Config, ops: seq<Op>, q: Line, newestNs: uint64, k: Correlation) {
    LastPut(ops, k) >= 0 ==> Holds(q, k) || Excused(cfg, ops, newestNs, k)
  }

  lemma ExcusedLater(cfg: Config, ops: seq<Op>, op: Op, newestNs: uint64, later: uint64, k: Correlation)
    requires Excused(cfg, ops, newestNs, k) && newestNs <= later && !(op.PutOp? && op.launch.correlation == k)
    ensures Excused(cfg, ops + [op], later, k)
  {
    var all := ops + [op];
    assert all[..|ops|] == ops;
    if op.PutOp? {
      assert PutSince(all, k) == PutSince(ops, k) + {op.launch.correlation};
      SubsetSize(PutSince(ops, k), PutSince(all, k));
    }
  }

  lemma SubsetSize(a: set<Correlation>, b: set<Correlation>)
    requires a <= b
    ensures |a| <= |b|
  {
    assert b == a + (b - a);
  }

  /** Still in the queue after the stale prefix is gone, or stale. */
  lemma RecentRetains(cfg: Config, ops: seq<Op>, newestNs: uint64, q: Line, k: Correlation)
    requires Current(ops, q) && Holds(q, k)
    ensures Holds(Recent(cfg, newestNs, q), k) || Excused(cfg, ops, newestNs, k)
  {
    var left := Recent(cfg, newestNs, q);
    var i :| 0 <= i < |q| && q[i].key == k;
    assert q[i] in q && ItemCurrent(ops, q[i]);
    RecentAt(cfg, newestNs, q, i);
  }

  lemma RecentAt(cfg: Config, newestNs: uint64, q: Line, i: nat)
    requires i < |q|
    ensures Holds(Recent(cfg, newestNs, q), q[i].key)
      || (cfg.horizonNs > 0 && q[i].value.launch.timeNs + cfg.horizonNs < newestNs)
  {
    RecentExact(cfg, newestNs, q);
    var left := Recent(cfg, newestNs, q);
    if i >= |q| - |left| {
      assert left[i - (|q| - |left|)] == q[i];
    }
  }

  lemma NewestRetains(cfg: Config, ops: seq<Op>, newestNs: uint64, q: Line, k: Correlation)
    requires Current(ops, q) && Holds(q, k) && cfg.capacity >= 1 && |q| <= cfg.capacity + 1
    ensures Holds(Newest(cfg.capacity, q), k) || Excused(cfg, ops, newestNs, k)
  {
    var i :| 0 <= i < |q| && q[i].key == k;
    if |q| > cfg.capacity {
      var left := Newest(cfg.capacity, q);
      assert |q[1..]| == cfg.capacity && Newest(cfg.capacity, q[1..]) == q[1..];
      if i > 0 {
        assert left[i - 1].key == k;
      } else {
        CrowdedOut(cfg, ops, q);
      }
    }
  }

  lemma EnqueueHolds(q: Line, l: Launch, k: Correlation)
    ensures var r := Without(q, l.correlation) + [Item(l.correlation, Held(l, false))];
      Holds(r, k) <==> Holds(q, k) || k == l.correlation
  {
    var left := Without(q, l.correlation);
    var r := left + [Item(l.correlation, Held(l, false))];
    WithoutDrops(q, l.correlation);
    assert r[|left|].key == l.correlation;
    if Holds(q, k) && k != l.correlation {
      var i :| 0 <= i < |q| && q[i].key == k;
      assert q[i] in left;
      var j :| 0 <= j < |left| && left[j] == q[i];
      assert r[j].key == k;
    }
    if Holds(r, k) && k != l.correlation {
      var i :| 0 <= i < |r| && r[i].key == k;
      assert left[i] in left;
    }
  }

  lemma PutRetains(cfg: Config, ops: seq<Op>, c: Cache, l: Launch, k: Correlation)
    requires cfg.capacity >= 1 && Current(ops, c.queue) && |c.queue| <= cfg.capacity
    requires Retained(cfg, ops, c.queue, c.newestNs, k)
    ensures var r := AfterPut(cfg, c, l); Retained(cfg, ops + [PutOp(l)], r.queue, r.newestNs, k)
  {
    var all, queued := ops + [PutOp(l)], Enqueue(Observe(cfg, c, l.timeNs), l);
    var kept := Recent(cfg, queued.newestNs, queued.queue);
    assert all[..|ops|] == ops;
    CurrentDistinct(ops, c.queue);
    EnqueueSize(c.queue, l);
    EnqueueCurrent(ops, c.queue, l);
    EnqueueHolds(c.queue, l, k);
    RecentCurrent(cfg, queued.newestNs, all, queued.queue);
    if Holds(queued.queue, k) {
      RecentRetains(cfg, all, queued.newestNs, queued.queue, k);
      if Holds(kept, k) {
        NewestRetains(cfg, all, queued.newestNs, kept, k);
      }
    } else if LastPut(all, k) >= 0 {
      ExcusedLater(cfg, ops, PutOp(l), c.newestNs, queued.newestNs, k);
    }
  }

  lemma JoinedHolds(q: Line, id: Correlation, k: Correlation)
    ensures Holds(Joined(q, id), k) <==> Holds(q, k)
  {
    var r := Joined(q, id);
    assert forall i :: 0 <= i < |q| ==> r[i].key == q[i].key;
  }

  /** Nothing else is lost: over every run a launch that was put is still there unless as many
      others as there is room for were put since, or it lies further back than the horizon. */
  lemma {:induction false} RunRetains(cfg: Config, ops: seq<Op>, k: Correlation)
    requires cfg.capacity >= 1
    ensures Retained(cfg, ops, Run(cfg, ops).queue, Run(cfg, ops).newestNs, k)
  {
    if ops != [] {
      var before, op := ops[..|ops| - 1], ops[|ops| - 1];
      var c := Run(cfg, before);
      assert ops == before + [op];
      RunRetains(cfg, before, k);
      RunHonest(cfg, before);
      if op.PutOp? {
        PutRetains(cfg, before, c, op.launch, k);
      } else {
        JoinedHolds(c.queue, op.id, k);
        if LastPut(before, k) >= 0 && !Holds(c.queue, k) {
          ExcusedLater(cfg, before, op, c.newestNs, c.newestNs, k);
        }
      }
    }
  }

  /** The horizon's clock. */
  function Clock(cfg: Config, ops: seq<Op>): uint64 {
    if ops == [] then 0
    else
      var last, before := ops[|ops| - 1], Clock(cfg, ops[..|ops| - 1]);
      if last.PutOp? then Observe(cfg, EMPTY.(newestNs := before), last.launch.timeNs).newestNs else before
  }

  lemma {:induction false} RunClock(cfg: Config, ops: seq<Op>)
    requires cfg.capacity >= 1
    ensures Run(cfg, ops).newestNs == Clock(cfg, ops)
  {
    if ops != [] {
      RunClock(cfg, ops[..|ops| - 1]);
    }
  }

  lemma {:induction false} ClockRuns(cfg: Config, ops: seq<Op>, i: nat)
    requires i <= |ops|
    ensures Clock(cfg, ops[..i]) <= Clock(cfg, ops)
  {
    if i == |ops| {
      assert ops[..i] == ops;
    } else {
      assert ops[..|ops| - 1][..i] == ops[..i];
      ClockRuns(cfg, ops[..|ops| - 1], i);
    }
  }

  /** It never runs back; no launch is ahead of it but one further ahead than it may jump when
      it came; and it moves to a launch's time alone, once it stands by no more than that. */
  lemma ClockHonest(cfg: Config, ops: seq<Op>, i: nat)
    requires cfg.capacity >= 1 && i < |ops| && ops[i].PutOp?
    ensures var time, before := ops[i].launch.timeNs, Run(cfg, ops[..i]).newestNs;
      var next, now := Run(cfg, ops[..i + 1]).newestNs, Run(cfg, ops).newestNs;
      && before <= next <= now
      && (next == before || next == time)
      && (time <= next || (before > 0 && time > before + cfg.maxAdvanceNs))
      && (before > 0 ==> next <= before + cfg.maxAdvanceNs)
  {
    assert ops[..i + 1][..i] == ops[..i];
    RunClock(cfg, ops[..i]);
    RunClock(cfg, ops[..i + 1]);
    RunClock(cfg, ops);
    ClockRuns(cfg, ops, i + 1);
  }
}
