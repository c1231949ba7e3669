/** The store of GPU binaries (gpu/modulestore.go): least recently used first out, bounded
    in number and in bytes, filled by a Put that parses outside its lock. */
module ModuleStore {
  import opened Machine
  import opened BoundedFifo

  datatype Kind = Unparseable | DamagedLineInfo | WithoutLineInfo | WithLineInfo

  datatype Place = Place(func: string, pcOffset: uint64)
  datatype Line = Line(file: string, line: uint32)

  /** A stored binary: what parsing it gave, and its size. */
  datatype Binary = Binary(size: nat, kind: Kind, functions: map<uint32, string>, lines: map<Place, Line>)

  /** Most recently used first. */
  type Shelf = seq<Item<uint64, Binary>>

  datatype Config = Config(capacity: int, maxBytes: int)
  {
    function Normalized(): (r: Config)
      ensures r.capacity == (if capacity <= 0 then 512 else capacity)
      ensures r.maxBytes == if maxBytes <= 0 then 67_108_864 else maxBytes
    {
      Config(if capacity <= 0 then 512 else capacity, if maxBytes <= 0 then 0x400_0000 else maxBytes)
    }
  }

  // ----- The shelf as a plain sequence.

  function Bytes(q: Shelf): nat {
    if q == [] then 0 else Bytes(q[..|q| - 1]) + q[|q| - 1].value.size
  }

  function Get(q: Shelf, crc: uint64): (r: Option<Binary>)
    ensures r.Some? ==> Item(crc, r.value) in q
    ensures r == None ==> forall i :: 0 <= i < |q| ==> q[i].key != crc
  {
    if q == [] then None
    else if q[|q| - 1].key == crc then Some(q[|q| - 1].value)
    else Get(q[..|q| - 1], crc)
  }

  /** Use moves a binary to the front. */
  function Touched(q: Shelf, crc: uint64): Shelf {
    match Get(q, crc)
    case None => q
    case Some(b) => [Item(crc, b)] + Without(q, crc)
  }

  function Fewer(q: Shelf, capacity: nat): (r: Shelf)
    ensures |r| <= |q| && r == q[..|r|] && |r| == Min(|q|, capacity)
  {
    if |q| > capacity then Fewer(q[..|q| - 1], capacity) else q
  }

  function Lighter(q: Shelf, maxBytes: nat): (r: Shelf)
    ensures |r| <= |q| && r == q[..|r|] && Bytes(r) <= maxBytes
    ensures |r| < |q| ==> Bytes(q[..|r| + 1]) > maxBytes
  {
    if Bytes(q) > maxBytes then
      var r := Lighter(q[..|q| - 1], maxBytes);
      assert |r| < |q| - 1 ==> q[..|q| - 1][..|r| + 1] == q[..|r| + 1];
      assert q[..|q|] == q;
      r
    else q
  }

  /** What a Put leaves once its parse is done: unchanged but for use if another Put got
      there first. */
  function Shelved(cfg: Config, q: Shelf, crc: uint64, b: Binary): Shelf
    requires cfg.capacity >= 1 && cfg.maxBytes >= 1
  {
    if Get(q, crc).Some? then Touched(q, crc)
    else Lighter(Fewer([Item(crc, b)] + q, cfg.capacity), cfg.maxBytes)
  }

  datatype Answer = NoModule | NoLineInfo | Unmapped | Resolved(func: string, file: string, line: uint32)

  function Lookup(b: Binary, functionIndex: uint32, pcOffset: uint64): Answer {
    if b.kind == Unparseable || b.kind == DamagedLineInfo then NoModule
    else if b.kind == WithoutLineInfo then NoLineInfo
    else if functionIndex !in b.functions then Unmapped
    else
      var func := b.functions[functionIndex];
      if Place(func, pcOffset) !in b.lines then Unmapped
      else
        var l := b.lines[Place(func, pcOffset)];
        Resolved(func, l.file, l.line)
  }

  function Answered(q: Shelf, crc: uint64, functionIndex: uint32, pcOffset: uint64): Answer {
    match Get(q, crc)
    case None => NoModule
    case Some(b) => Lookup(b, functionIndex, pcOffset)
  }

  /** What an answer means, held binary by held binary: a place is resolved exactly when the
      binary has line information for it; a binary never given, not parsed or with damaged
      line information is no module; one built without it says so; the rest is unmapped. */
  lemma AnswerIff(q: Shelf, crc: uint64, functionIndex: uint32, pcOffset: uint64, func: string, l: Line)
    ensures var answer, held := Answered(q, crc, functionIndex, pcOffset), Get(q, crc);
      && (answer == NoModule <==> held == None || held.value.kind in {Unparseable, DamagedLineInfo})
      && (answer == NoLineInfo <==> held.Some? && held.value.kind == WithoutLineInfo)
      && (answer == Resolved(func, l.file, l.line) <==>
            && held.Some? && held.value.kind == WithLineInfo
            && functionIndex in held.value.functions && held.value.functions[functionIndex] == func
            && Place(func, pcOffset) in held.value.lines && held.value.lines[Place(func, pcOffset)] == l)
  {
  }

  // ----- The shelf against its index.

  ghost predicate Unique(q: Shelf) {
    q == [] || ((forall x :: x in q[..|q| - 1] ==> x.key != q[|q| - 1].key) && Unique(q[..|q| - 1]))
  }

  /** The list holds each binary of the map once. */
  ghost predicate Indexed(q: Shelf, m: map<uint64, Binary>) {
    && (forall x :: x in q <==> x.key in m && m[x.key] == x.value)
    && |q| == |m|
    && Unique(q)
  }

  lemma GetIndexed(q: Shelf, m: map<uint64, Binary>, crc: uint64)
    requires Indexed(q, m)
    ensures Get(q, crc) == if crc in m then Some(m[crc]) else None
  {
    if crc in m {
      assert Item(crc, m[crc]) in q;
    }
  }

  lemma {:induction false} UniquePush(x: Item<uint64, Binary>, q: Shelf)
    requires Unique(q) && forall y :: y in q ==> y.key != x.key
    ensures Unique([x] + q)
  {
    if q == [] {
      assert ([x] + q)[..0] == [];
    } else {
      var n := |q| - 1;
      UniquePush(x, q[..n]);
      assert ([x] + q)[..|q|] == [x] + q[..n];
    }
  }

  lemma {:induction false} WithoutLast(q: Shelf, x: Item<uint64, Binary>, crc: uint64)
    ensures Without(q + [x], crc) == Without(q, crc) + if x.key == crc then [] else [x]
  {
    if q == [] {
      assert (q + [x])[1..] == [];
    } else {
      assert (q + [x])[1..] == q[1..] + [x];
      WithoutLast(q[1..], x, crc);
    }
  }

  lemma UniqueSnoc(q: Shelf, x: Item<uint64, Binary>)
    requires Unique(q) && forall y :: y in q ==> y.key != x.key
    ensures Unique(q + [x])
  {
    assert (q + [x])[..|q|] == q;
  }

  lemma {:induction false} UniqueWithout(q: Shelf, crc: uint64)
    requires Unique(q)
    ensures Unique(Without(q, crc))
  {
    if q != [] {
      var n := |q| - 1;
      UniqueWithout(q[..n], crc);
      WithoutDrops(q[..n], crc);
      assert q == q[..n] + [q[n]];
      WithoutLast(q[..n], q[n], crc);
      if q[n].key == crc {
        assert Without(q, crc) == Without(q[..n], crc);
      } else {
        UniqueSnoc(Without(q[..n], crc), q[n]);
      }
    }
  }

  /** Taking a binary out takes one entry and its weight. */
  lemma {:induction false} WeighWithout(q: Shelf, crc: uint64)
    requires Unique(q)
    ensures |Without(q, crc)| == |q| - if Get(q, crc).Some? then 1 else 0
    ensures Bytes(Without(q, crc)) == Bytes(q) - if Get(q, crc).Some? then Get(q, crc).value.size else 0
  {
    if q != [] {
      var n := |q| - 1;
      var r := Without(q[..n], crc);
      WeighWithout(q[..n], crc);
      assert q == q[..n] + [q[n]];
      WithoutLast(q[..n], q[n], crc);
      if q[n].key == crc {
        assert Without(q, crc) == r;
        assert Get(q[..n], crc) == None;
      } else {
        assert (r + [q[n]])[..|r|] == r;
      }
    }
  }

  lemma {:induction false} BytesFront(x: Item<uint64, Binary>, q: Shelf)
    ensures Bytes([x] + q) == x.value.size + Bytes(q)
  {
    if q == [] {
      assert ([x] + q)[..0] == [];
    } else {
      BytesFront(x, q[..|q| - 1]);
      assert ([x] + q)[..|q|] == [x] + q[..|q| - 1];
    }
  }

  /** Use never changes what is held or what it weighs. */
  lemma TouchedIndexed(q: Shelf, m: map<uint64, Binary>, crc: uint64)
    requires Indexed(q, m) && crc in m
    ensures Touched(q, crc) == [Item(crc, m[crc])] + Without(q, crc)
    ensures Indexed(Touched(q, crc), m) && Bytes(Touched(q, crc)) == Bytes(q)
  {
    var x := Item(crc, m[crc]);
    GetIndexed(q, m, crc);
    WithoutDrops(q, crc);
    UniqueWithout(q, crc);
    WeighWithout(q, crc);
    UniquePush(x, Without(q, crc));
    BytesFront(x, Without(q, crc));
  }

  lemma PushIndexed(q: Shelf, m: map<uint64, Binary>, crc: uint64, b: Binary)
    requires Indexed(q, m) && crc !in m
    ensures Indexed([Item(crc, b)] + q, m[crc := b]) && |m[crc := b]| == |m| + 1
    ensures Bytes([Item(crc, b)] + q) == Bytes(q) + b.size
  {
    SizeWith(m, crc, b);
    UniquePush(Item(crc, b), q);
    BytesFront(Item(crc, b), q);
  }

  lemma DropIndexed(q: Shelf, m: map<uint64, Binary>)
    requires Indexed(q, m) && q != []
    ensures var last := q[|q| - 1];
      && Indexed(q[..|q| - 1], m - {last.key}) && |m - {last.key}| == |m| - 1
      && Bytes(q[..|q| - 1]) == Bytes(q) - last.value.size
  {
    var n := |q| - 1;
    assert q == q[..n] + [q[n]];
    assert q[n] in q;
    SizeWithout(m, q[n].key);
  }

  // ----- The imperative store.

  /** Binaries stored, by what parsing them gave. */
  datatype KindStats = KindStats(unparseable: nat, damagedLineInfo: nat, withoutLineInfo: nat, withLineInfo: nat)
  {
    function Total(): nat { unparseable + damagedLineInfo + withoutLineInfo + withLineInfo }

    function Counting(k: Kind): (r: KindStats)
      ensures r.Total() == Total() + 1
    {
      match k
      case Unparseable => this.(unparseable := unparseable + 1)
      case DamagedLineInfo => this.(damagedLineInfo := damagedLineInfo + 1)
      case WithoutLineInfo => this.(withoutLineInfo := withoutLineInfo + 1)
      case WithLineInfo => this.(withLineInfo := withLineInfo + 1)
    }
  }

  /** Resolve calls, by what they answered. */
  datatype AnswerStats = AnswerStats(noModule: nat, noLineInfo: nat, unmapped: nat, resolved: nat)
  {
    function Total(): nat { noModule + noLineInfo + unmapped + resolved }

    function Counting(a: Answer): (r: AnswerStats)
      ensures r.Total() == Total() + 1
    {
      match a
      case NoModule => this.(noModule := noModule + 1)
      case NoLineInfo => this.(noLineInfo := noLineInfo + 1)
      case Unmapped => this.(unmapped := unmapped + 1)
      case Resolved(_, _, _) => this.(resolved := resolved + 1)
    }
  }

  class Store {
    const cfg: Config
    var byCRC: map<uint64, Binary>
    var lru: Shelf
    var liveBytes: int
    var stored: nat
    var evicted: nat
    var evictedCapacity: nat
    var evictedBytes: nat
    var kinds: KindStats
    var answers: AnswerStats
    ghost var resolves: nat

    ghost predicate Valid()
      reads this`byCRC, this`lru
    {
      cfg.capacity >= 1 && cfg.maxBytes >= 1 && Indexed(lru, byCRC)
    }

    ghost predicate Weighed()
      reads this`lru, this`liveBytes
    {
      liveBytes == Bytes(lru)
    }

    ghost predicate Bounded()
      reads this`byCRC, this`lru, this`liveBytes
    {
      Weighed() && |byCRC| <= cfg.capacity && liveBytes <= cfg.maxBytes
    }

    ghost predicate StoredExact()
      reads this`byCRC, this`stored, this`evicted, this`evictedCapacity, this`evictedBytes, this`kinds
    {
      && stored == |byCRC| + evicted
      && evicted == evictedCapacity + evictedBytes
      && stored == kinds.Total()
    }

    ghost predicate ResolvesExact()
      reads this`resolves, this`answers
    {
      resolves == answers.Total()
    }

    /** Every counter partition is exact, and both bounds are met, whenever no method is
        running: each method is one critical section. */
    ghost predicate Honest()
      reads this
    {
      Bounded() && StoredExact() && ResolvesExact()
    }

    constructor (cfg: Config)
      ensures Valid() && Honest() && lru == [] && resolves == 0
      ensures this.cfg == cfg.Normalized()
    {
      this.cfg := cfg.Normalized();
      byCRC, lru, liveBytes, stored := map[], [], 0, 0;
      evicted, evictedCapacity, evictedBytes := 0, 0, 0;
      kinds, answers := KindStats(0, 0, 0, 0), AnswerStats(0, 0, 0, 0);
      resolves := 0;
    }

    /** Looks a binary up; one that is there moves to the front. */
    method Use(crc: uint64) returns (found: Option<Binary>)
      requires Valid() && Weighed()
      modifies this`lru
      ensures Valid() && Weighed() && lru == Touched(old(lru), crc)
      ensures found == Get(old(lru), crc)
      ensures found == if crc in byCRC then Some(byCRC[crc]) else None
    {
      GetIndexed(lru, byCRC, crc);
      if crc !in byCRC {
        return None;
      }
      TouchedIndexed(lru, byCRC, crc);
      found := Some(byCRC[crc]);
      lru := [Item(crc, found.value)] + Without(lru, crc);
    }

    /** First critical section of a Put: known already, or to be parsed. */
    method PutBegin(crc: uint64) returns (known: Option<Kind>)
      requires Valid() && Honest()
      modifies this`lru
      ensures Valid() && Honest()
      ensures known == if crc in byCRC then Some(byCRC[crc].kind) else None
      ensures lru == Touched(old(lru), crc)
    {
      var found := Use(crc);
      known := if found.Some? then Some(found.value.kind) else None;
    }

    /** Second critical section, after the parse: another Put may have got there first. */
    method PutFinish(crc: uint64, b: Binary) returns (kind: Kind)
      requires Valid() && Honest()
      modifies this`byCRC, this`lru, this`liveBytes, this`stored, this`evicted, this`evictedCapacity, this`evictedBytes,
               this`kinds
      ensures Valid() && Honest()
      ensures kinds == if crc in old(byCRC) then old(kinds) else old(kinds).Counting(b.kind)
      ensures lru == Shelved(cfg, old(lru), crc, b)
      ensures kind == if crc in old(byCRC) then old(byCRC)[crc].kind else b.kind
    {
      var found := Use(crc);
      if found.Some? {
        return found.value.kind;
      }
      StoreNew(crc, b);
      kind := b.kind;
    }

    method StoreNew(crc: uint64, b: Binary)
      requires Valid() && Weighed() && StoredExact() && crc !in byCRC
      modifies this`byCRC, this`lru, this`liveBytes, this`stored, this`evicted, this`evictedCapacity, this`evictedBytes,
               this`kinds
      ensures Valid() && Bounded() && StoredExact() && kinds == old(kinds).Counting(b.kind)
      ensures lru == Lighter(Fewer([Item(crc, b)] + old(lru), cfg.capacity), cfg.maxBytes)
    {
      Shelve(crc, b);
      kinds := kinds.Counting(b.kind);
    }

    method Shelve(crc: uint64, b: Binary)
      requires Valid() && Weighed() && crc !in byCRC
      modifies this`byCRC, this`lru, this`liveBytes, this`stored, this`evicted, this`evictedCapacity, this`evictedBytes
      ensures Valid() && Bounded() && stored == old(stored) + 1
      ensures lru == Lighter(Fewer([Item(crc, b)] + old(lru), cfg.capacity), cfg.maxBytes)
      ensures evicted + |byCRC| == old(evicted + |byCRC|) + 1
      ensures evicted - evictedCapacity - evictedBytes == old(evicted - evictedCapacity - evictedBytes)
    {
      PushFront(crc, b);
      stored := stored + 1;
      Evict();
    }

    method Evict()
      requires Valid() && Weighed()
      modifies this`byCRC, this`lru, this`liveBytes, this`evicted, this`evictedCapacity, this`evictedBytes
      ensures Valid() && Bounded() && lru == Lighter(Fewer(old(lru), cfg.capacity), cfg.maxBytes)
      ensures evicted + |byCRC| == old(evicted + |byCRC|)
      ensures evicted - evictedCapacity - evictedBytes == old(evicted - evictedCapacity - evictedBytes)
    {
      EvictOverCapacity();
      EvictOverBytes();
    }

    method PushFront(crc: uint64, b: Binary)
      requires Valid() && Weighed() && crc !in byCRC
      modifies this`byCRC, this`lru, this`liveBytes
      ensures Valid() && Weighed() && lru == [Item(crc, b)] + old(lru)
      ensures |byCRC| == old(|byCRC|) + 1
    {
      PushIndexed(lru, byCRC, crc, b);
      lru := [Item(crc, b)] + lru;
      byCRC := byCRC[crc := b];
      liveBytes := liveBytes + b.size;
    }

    method EvictOverCapacity()
      requires Valid() && Weighed()
      modifies this`byCRC, this`lru, this`liveBytes, this`evicted, this`evictedCapacity
      ensures Valid() && Weighed() && lru == Fewer(old(lru), cfg.capacity)
      ensures evicted + |byCRC| == old(evicted + |byCRC|)
      ensures evicted - evictedCapacity == old(evicted - evictedCapacity)
    {
      while |byCRC| > cfg.capacity
        invariant Valid() && Weighed()
        invariant Fewer(lru, cfg.capacity) == Fewer(old(lru), cfg.capacity)
        invariant evicted + |byCRC| == old(evicted + |byCRC|)
        invariant evicted - evictedCapacity == old(evicted - evictedCapacity)
      {
        EvictOldest();
        evictedCapacity := evictedCapacity + 1;
      }
    }

    method EvictOverBytes()
      requires Valid() && Weighed()
      modifies this`byCRC, this`lru, this`liveBytes, this`evicted, this`evictedBytes
      ensures Valid() && Weighed() && lru == Lighter(old(lru), cfg.maxBytes)
      ensures evicted + |byCRC| == old(evicted + |byCRC|)
      ensures evicted - evictedBytes == old(evicted - evictedBytes)
    {
      while liveBytes > cfg.maxBytes
        invariant Valid() && Weighed()
        invariant Lighter(lru, cfg.maxBytes) == Lighter(old(lru), cfg.maxBytes)
        invariant evicted + |byCRC| == old(evicted + |byCRC|)
        invariant evicted - evictedBytes == old(evicted - evictedBytes)
        decreases |byCRC|
      {
        EvictOldest();
        evictedBytes := evictedBytes + 1;
      }
    }

    method EvictOldest()
      requires Valid() && Weighed() && |lru| > 0
      modifies this`byCRC, this`lru, this`liveBytes, this`evicted
      ensures Valid() && Weighed() && |byCRC| == old(|byCRC|) - 1 && evicted == old(evicted) + 1
      ensures lru == old(lru)[..|old(lru)| - 1]
    {
      var oldest := lru[|lru| - 1];
      DropIndexed(lru, byCRC);
      lru := lru[..|lru| - 1];
      byCRC := byCRC - {oldest.key};
      liveBytes := liveBytes - oldest.value.size;
      evicted := evicted + 1;
    }

    method Resolve(crc: uint64, functionIndex: uint32, pcOffset: uint64) returns (answer: Answer)
      requires Valid() && Honest()
      modifies this`lru, this`answers, this`resolves
      ensures Valid() && Honest() && resolves == old(resolves) + 1 && answers == old(answers).Counting(answer)
      ensures answer == Answered(old(lru), crc, functionIndex, pcOffset)
      ensures lru == Touched(old(lru), crc)
    {
      var found := Use(crc);
      answer := NoModule;
      if found.Some? {
        answer := Inspect(found.value, functionIndex, pcOffset);
      }
      answers, resolves := answers.Counting(answer), resolves + 1;
    }

    method Inspect(b: Binary, functionIndex: uint32, pcOffset: uint64) returns (answer: Answer)
      ensures answer == Lookup(b, functionIndex, pcOffset)
    {
      if b.kind == Unparseable || b.kind == DamagedLineInfo {
        return NoModule;
      }
      if b.kind == WithoutLineInfo {
        return NoLineInfo;
      }
      if functionIndex !in b.functions {
        return Unmapped;
      }
      var place := Place(b.functions[functionIndex], pcOffset);
      if place !in b.lines {
        return Unmapped;
      }
      return Resolved(place.func, b.lines[place].file, b.lines[place].line);
    }

    method Has(crc: uint64) returns (has: bool)
      requires Valid() && Honest()
      modifies this`lru
      ensures Valid() && Honest() && has == (crc in byCRC) && lru == Touched(old(lru), crc)
    {
      var found := Use(crc);
      has := found.Some?;
    }

    method FunctionName(crc: uint64, functionIndex: uint32) returns (name: Option<string>)
      requires Valid() && Honest()
      modifies this`lru
      ensures Valid() && Honest() && lru == Touched(old(lru), crc)
      ensures name == if crc in byCRC && functionIndex in byCRC[crc].functions
        then Some(byCRC[crc].functions[functionIndex]) else None
    {
      var found := Use(crc);
      name :=
        if found.Some? && functionIndex in found.value.functions then Some(found.value.functions[functionIndex])
        else None;
    }
  }

  // ----- Whole runs: the shelf is the most recently used binaries, in that order.

  /** One critical section: a lookup of any kind, or the second half of a Put. The first
      half of a Put is a lookup; any steps may come between its two halves. */
  datatype Step = Look(crc: uint64) | Finish(crc: uint64, binary: Binary)

  function Next(cfg: Config, q: Shelf, step: Step): Shelf
    requires cfg.capacity >= 1 && cfg.maxBytes >= 1
  {
    match step
    case Look(crc) => Touched(q, crc)
    case Finish(crc, b) => Shelved(cfg, q, crc, b)
  }

  function Run(cfg: Config, steps: seq<Step>): Shelf
    requires cfg.capacity >= 1 && cfg.maxBytes >= 1
  {
    if steps == [] then [] else Next(cfg, Run(cfg, steps[..|steps| - 1]), steps[|steps| - 1])
  }

  /** When a binary was last named, or -1. */
  function LastUse(steps: seq<Step>, crc: uint64): (r: int)
    ensures -1 <= r < |steps|
  {
    if steps == [] then -1
    else if steps[|steps| - 1].crc == crc then |steps| - 1
    else LastUse(steps[..|steps| - 1], crc)
  }

  /** Each binary was used later than those behind it. */
  ghost predicate ByRecency(steps: seq<Step>, q: Shelf) {
    q == [] || (LaterThan(steps, q[..|q| - 1], q[|q| - 1].key) && ByRecency(steps, q[..|q| - 1]))
  }

  ghost predicate LaterThan(steps: seq<Step>, q: Shelf, crc: uint64) {
    forall x :: x in q ==> LastUse(steps, x.key) > LastUse(steps, crc)
  }

  lemma {:induction false} StillByRecency(steps: seq<Step>, step: Step, q: Shelf)
    requires ByRecency(steps, q) && forall x :: x in q ==> x.key != step.crc
    ensures ByRecency(steps + [step], q)
    ensures forall x :: x in q ==> LastUse(steps + [step], x.key) == LastUse(steps, x.key)
  {
    assert (steps + [step])[..|steps|] == steps;
    if q != [] {
      StillByRecency(steps, step, q[..|q| - 1]);
      assert q == q[..|q| - 1] + [q[|q| - 1]];
    }
  }

  lemma {:induction false} PushByRecency(steps: seq<Step>, x: Item<uint64, Binary>, q: Shelf)
    requires ByRecency(steps, q) && forall y :: y in q ==> LastUse(steps, y.key) < LastUse(steps, x.key)
    ensures ByRecency(steps, [x] + q)
  {
    if q == [] {
      assert ([x] + q)[..0] == [];
    } else {
      var n := |q| - 1;
      PushByRecency(steps, x, q[..n]);
      assert ([x] + q)[..|q|] == [x] + q[..n];
      assert q[n] in q;
    }
  }

  lemma {:induction false} WithoutByRecency(steps: seq<Step>, q: Shelf, crc: uint64)
    requires ByRecency(steps, q)
    ensures ByRecency(steps, Without(q, crc))
  {
    if q != [] {
      var n := |q| - 1;
      var r := Without(q[..n], crc);
      assert q == q[..n] + [q[n]];
      WithoutByRecency(steps, q[..n], crc);
      WithoutLast(q[..n], q[n], crc);
      WithoutDrops(q[..n], crc);
      if q[n].key == crc {
        assert Without(q, crc) == r;
      } else {
        assert (r + [q[n]])[..|r|] == r;
      }
    }
  }

  lemma {:induction false} PrefixByRecency(steps: seq<Step>, q: Shelf, n: nat)
    requires ByRecency(steps, q) && n <= |q|
    ensures ByRecency(steps, q[..n])
  {
    if n < |q| {
      PrefixByRecency(steps, q[..|q| - 1], n);
      assert q[..|q| - 1][..n] == q[..n];
    } else {
      assert q[..n] == q;
    }
  }

  /** The binary just used goes in front of the rest. */
  lemma FrontByRecency(steps: seq<Step>, step: Step, x: Item<uint64, Binary>, rest: Shelf)
    requires ByRecency(steps, rest) && x.key == step.crc && forall y :: y in rest ==> y.key != step.crc
    ensures ByRecency(steps + [step], [x] + rest)
  {
    StillByRecency(steps, step, rest);
    assert LastUse(steps + [step], step.crc) == |steps|;
    PushByRecency(steps + [step], x, rest);
  }

  lemma TouchByRecency(steps: seq<Step>, q: Shelf, step: Step)
    requires ByRecency(steps, q)
    ensures ByRecency(steps + [step], Touched(q, step.crc))
  {
    if Get(q, step.crc).Some? {
      WithoutByRecency(steps, q, step.crc);
      WithoutDrops(q, step.crc);
      FrontByRecency(steps, step, Item(step.crc, Get(q, step.crc).value), Without(q, step.crc));
    } else {
      StillByRecency(steps, step, q);
    }
  }

  lemma FinishByRecency(cfg: Config, steps: seq<Step>, q: Shelf, step: Step)
    requires cfg.capacity >= 1 && cfg.maxBytes >= 1 && step.Finish? && ByRecency(steps, q)
    ensures ByRecency(steps + [step], Shelved(cfg, q, step.crc, step.binary))
  {
    if Get(q, step.crc).Some? {
      TouchByRecency(steps, q, step);
    } else {
      var all, pushed := steps + [step], [Item(step.crc, step.binary)] + q;
      FrontByRecency(steps, step, Item(step.crc, step.binary), q);
      var fewer := Fewer(pushed, cfg.capacity);
      PrefixByRecency(all, pushed, |fewer|);
      PrefixByRecency(all, fewer, |Lighter(fewer, cfg.maxBytes)|);
    }
  }

  /** Over every interleaving of lookups and two-phase Puts the shelf is in order of last
      use, so what an eviction takes is always the least recently used. */
  lemma {:induction false} RunByRecency(cfg: Config, steps: seq<Step>)
    requires cfg.capacity >= 1 && cfg.maxBytes >= 1
    ensures ByRecency(steps, Run(cfg, steps))
  {
    if steps != [] {
      var before, step := steps[..|steps| - 1], steps[|steps| - 1];
      RunByRecency(cfg, before);
      assert steps == before + [step];
      if step.Look? {
        TouchByRecency(before, Run(cfg, before), step);
      } else {
        FinishByRecency(cfg, before, Run(cfg, before), step);
      }
    }
  }
}
