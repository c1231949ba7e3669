/** How PC samples reach executions (gpu/timeline.go): the correlation-keyed and
    module-keyed pending stores, and the two joins of a snapshot. */
module SampleJoin {
  import opened Machine
  import opened GpuEvents
  import opened BoundedFifo
  import opened PendingSamples

  const MAX_ADVANCE_NS: uint64 := 60_000_000_000

  /** What a sample with no correlation value still carries. */
  datatype ModuleKey = ModuleKey(backend: string, pid: uint32, crc: uint64, functionIndex: uint32)

  function ModuleKeyFor(p: PcSample): ModuleKey {
    ModuleKey(if p.moduleBackend == "" then p.correlation.backend else p.moduleBackend,
              p.correlation.pid, p.crc, p.functionIndex)
  }

  datatype PcAttrib = Unset | Exact | Kernel | KernelAmbiguous | KernelMultiDevice | GraphRefused

  function Rank(a: PcAttrib): nat {
    match a
    case Unset => 0
    case Exact => 1
    case Kernel => 2
    case KernelAmbiguous => 3
    case KernelMultiDevice => 4
    case GraphRefused => 5
  }

  function Worse(a: PcAttrib, b: PcAttrib): (r: PcAttrib)
    ensures r == a || r == b
    ensures Rank(r) >= Rank(a) && Rank(r) >= Rank(b)
  {
    if Rank(b) > Rank(a) then b else a
  }

  // ----- Emitting.

  function Observed(newestNs: uint64, timeNs: uint64): uint64 {
    if timeNs <= newestNs then newestNs
    else if newestNs != 0 && timeNs - newestNs > MAX_ADVANCE_NS then newestNs
    else timeNs
  }

  datatype Config = Config(correlations: Bounds, modules: Bounds)

  /** Both stores as plain queues, on the one clock they share. */
  datatype Stores = Stores(byCorrelation: Line<Correlation>, byModule: Line<ModuleKey>, newestNs: uint64)

  function Emitted(cfg: Config, s: Stores, p: PcSample): Stores {
    var newestNs := Observed(s.newestNs, p.timeNs);
    if p.correlation.Present() then
      Stores(Added(cfg.correlations, newestNs, s.byCorrelation, p.correlation, p), s.byModule, newestNs)
    else
      Stores(s.byCorrelation, Added(cfg.modules, newestNs, s.byModule, ModuleKeyFor(p), p), newestNs)
  }

  /** How many samples one emit counts as evicted from each store. */
  function EvictedByCorrelation(cfg: Config, s: Stores, p: PcSample): nat {
    if !p.correlation.Present() then 0
    else Evictions(cfg.correlations, Observed(s.newestNs, p.timeNs), s.byCorrelation, p.correlation, p)
  }

  function EvictedByModule(cfg: Config, s: Stores, p: PcSample): nat {
    if p.correlation.Present() then 0
    else Evictions(cfg.modules, Observed(s.newestNs, p.timeNs), s.byModule, ModuleKeyFor(p), p)
  }

  // ----- The exact join: first claim, in the order of the executions.

  function AfterExact(q: Line<Correlation>, execs: seq<Exec>): Line<Correlation> {
    if execs == [] then q
    else Without(AfterExact(q, execs[..|execs| - 1]), execs[|execs| - 1].correlation)
  }

  /** What each execution gets through its correlation. */
  function ExactShares(q: Line<Correlation>, execs: seq<Exec>): (r: seq<seq<PcSample>>)
    ensures |r| == |execs|
  {
    if execs == [] then []
    else
      var before := execs[..|execs| - 1];
      ExactShares(q, before) + [Waiting(AfterExact(q, before), execs[|execs| - 1].correlation)]
  }

  function ExactServed(q: Line<Correlation>, execs: seq<Exec>): (r: seq<bool>)
    ensures |r| == |execs|
  {
    if execs == [] then []
    else
      var before := execs[..|execs| - 1];
      ExactServed(q, before) + [Holds(AfterExact(q, before), execs[|execs| - 1].correlation)]
  }

  // ----- The module join.

  datatype FunctionRef = FunctionRef(crc: uint64, functionIndex: uint32)

  /** What the module join consults: device function names out of the module store, and
      the processes seen on more than one device. */
  datatype Evidence = Evidence(names: map<FunctionRef, string>, multiDevice: set<uint32>)

  predicate Runs(e: Exec, pid: uint32, name: string) {
    e.kernelName != "" && e.correlation.pid != 0 && e.correlation.pid == pid && e.kernelName == name
  }

  /** Every execution of a kernel in the snapshot, served or not. */
  function Candidates(execs: seq<Exec>, pid: uint32, name: string): (r: seq<nat>)
    ensures forall i :: 0 <= i < |r| ==> r[i] < |execs|
  {
    if execs == [] then []
    else
      var n := |execs| - 1;
      Candidates(execs[..n], pid, name) + if Runs(execs[n], pid, name) then [n] else []
  }

  /** The earliest unserved candidate, or -1. */
  function Pick(execs: seq<Exec>, served: seq<bool>, cs: seq<nat>): (r: int)
    requires |served| == |execs| && forall i :: 0 <= i < |cs| ==> cs[i] < |execs|
    ensures -1 <= r < |execs|
  {
    if cs == [] then -1
    else
      var n := |cs| - 1;
      var best := Pick(execs, served, cs[..n]);
      if served[cs[n]] then best
      else if best < 0 || execs[cs[n]].startNs < execs[best].startNs then cs[n]
      else best
  }

  datatype Outcome = NoProcess | UnresolvedName | NoExecution | Joined(target: nat, attrib: PcAttrib)

  function Decide(ev: Evidence, execs: seq<Exec>, served: seq<bool>, key: ModuleKey): (r: Outcome)
    requires |served| == |execs|
    ensures r.Joined? ==> r.target < |execs|
  {
    var ref := FunctionRef(key.crc, key.functionIndex);
    if key.pid == 0 then NoProcess
    else if ref !in ev.names then UnresolvedName
    else
      var cs := Candidates(execs, key.pid, ev.names[ref]);
      var target := Pick(execs, served, cs);
      if target < 0 then NoExecution
      else if key.pid in ev.multiDevice then Joined(target, KernelMultiDevice)
      else if |cs| > 1 then Joined(target, KernelAmbiguous)
      else Joined(target, Kernel)
  }

  /** Groups examined, by what became of them. */
  datatype GroupStats = GroupStats(noProcess: nat, unresolvedName: nat, noExecution: nat, joined: nat)
  {
    function Total(): nat { noProcess + unresolvedName + noExecution + joined }

    function Counting(o: Outcome): (r: GroupStats)
      ensures r.Total() == Total() + 1
    {
      match o
      case NoProcess => this.(noProcess := noProcess + 1)
      case UnresolvedName => this.(unresolvedName := unresolvedName + 1)
      case NoExecution => this.(noExecution := noExecution + 1)
      case Joined(_, _) => this.(joined := joined + 1)
    }
  }

  /** A snapshot's join in progress. */
  datatype Join = Join(byModule: Line<ModuleKey>, shares: seq<seq<PcSample>>, attribs: seq<PcAttrib>, stats: GroupStats)

  function Place(j: Join, key: ModuleKey, outcome: Outcome): (r: Join)
    requires |j.shares| == |j.attribs| && (outcome.Joined? ==> outcome.target < |j.shares|)
    ensures |r.shares| == |r.attribs| == |j.shares|
  {
    match outcome
    case Joined(t, a) =>
      Join(Without(j.byModule, key),
           j.shares[t := j.shares[t] + Waiting(j.byModule, key)],
           j.attribs[t := Worse(j.attribs[t], a)],
           j.stats.Counting(outcome))
    case _ => j.(stats := j.stats.Counting(outcome))
  }

  function Placed(ev: Evidence, execs: seq<Exec>, served: seq<bool>, j: Join, keys: seq<ModuleKey>): (r: Join)
    requires |served| == |execs| == |j.shares| == |j.attribs|
    ensures |r.shares| == |r.attribs| == |execs|
  {
    if keys == [] then j
    else
      var n := |keys| - 1;
      Place(Placed(ev, execs, served, j, keys[..n]), keys[n], Decide(ev, execs, served, keys[n]))
  }

  function Blank(n: nat): (r: seq<PcAttrib>)
    ensures |r| == n && forall i :: 0 <= i < n ==> r[i] == Unset
  {
    seq(n, _ => Unset)
  }

  /** The join as the exact pass leaves it. */
  function Opening(byModule: Line<ModuleKey>, exact: seq<seq<PcSample>>): (r: Join)
    ensures |r.shares| == |r.attribs| == |exact|
  {
    Join(byModule, exact, Blank(|exact|), GroupStats(0, 0, 0, 0))
  }

  /** Everything the second critical section of a snapshot attributes. */
  function Snapshot(ev: Evidence, s: Stores, execs: seq<Exec>, keys: seq<ModuleKey>): (r: Join)
    ensures |r.shares| == |r.attribs| == |execs|
  {
    Placed(ev, execs, ExactServed(s.byCorrelation, execs),
           Opening(s.byModule, ExactShares(s.byCorrelation, execs)), keys)
  }

  function AfterSnapshot(ev: Evidence, s: Stores, execs: seq<Exec>, keys: seq<ModuleKey>): Stores {
    Stores(AfterExact(s.byCorrelation, execs), Snapshot(ev, s, execs, keys).byModule, s.newestNs)
  }

  // ----- What the choices mean.

  lemma {:induction false} CandidatesExact(execs: seq<Exec>, pid: uint32, name: string)
    ensures var cs := Candidates(execs, pid, name);
      && (forall i :: 0 <= i < |execs| ==> (i in cs <==> Runs(execs[i], pid, name)))
      && (forall i, j :: 0 <= i < j < |cs| ==> cs[i] < cs[j])
  {
    if execs != [] {
      var n := |execs| - 1;
      CandidatesExact(execs[..n], pid, name);
    }
  }

  predicate NoLater(execs: seq<Exec>, r: nat, c: nat)
    requires r < |execs| && c < |execs|
  {
    execs[r].startNs < execs[c].startNs || (execs[r].startNs == execs[c].startNs && r <= c)
  }

  /** No unserved candidate means -1; otherwise the one that started first, the earlier
      in ring order on a tie. */
  lemma {:induction false} PickExact(execs: seq<Exec>, served: seq<bool>, cs: seq<nat>)
    requires |served| == |execs| && forall i :: 0 <= i < |cs| ==> cs[i] < |execs|
    requires forall i, j :: 0 <= i < j < |cs| ==> cs[i] < cs[j]
    ensures var r := Pick(execs, served, cs);
      && (r < 0 <==> forall c :: c in cs ==> served[c])
      && (r >= 0 ==> r in cs && !served[r] && forall c :: c in cs && !served[c] ==> NoLater(execs, r, c))
  {
    if cs != [] {
      var n := |cs| - 1;
      assert cs == cs[..n] + [cs[n]];
      PickExact(execs, served, cs[..n]);
      var best := Pick(execs, served, cs[..n]);
      assert best >= 0 ==> best in cs[..n];
    }
  }

  /** A group goes to an execution of its own process and kernel that the exact join left
      unserved, the earliest of them; it waits only when there is none. */
  lemma DecideExact(ev: Evidence, execs: seq<Exec>, served: seq<bool>, key: ModuleKey, i: nat)
    requires |served| == |execs| && i < |execs|
    requires key.pid != 0 && FunctionRef(key.crc, key.functionIndex) in ev.names
    ensures var name := ev.names[FunctionRef(key.crc, key.functionIndex)];
      var eligible := Runs(execs[i], key.pid, name) && !served[i];
      var r := Decide(ev, execs, served, key);
      && (r == NoExecution ==> !eligible)
      && (r.Joined? ==>
            && Runs(execs[r.target], key.pid, name) && !served[r.target]
            && (eligible ==> execs[r.target].startNs <= execs[i].startNs))
      && (r.Joined? || r == NoExecution)
  {
    var name := ev.names[FunctionRef(key.crc, key.functionIndex)];
    CandidatesExact(execs, key.pid, name);
    PickExact(execs, served, Candidates(execs, key.pid, name));
  }

  /** Why a group waits: it names no process, its function has no name, or every execution of
      that process and name, if there is any, was served by its own correlation. */
  lemma WaitsIff(ev: Evidence, execs: seq<Exec>, served: seq<bool>, key: ModuleKey)
    requires |served| == |execs|
    ensures var r, ref := Decide(ev, execs, served, key), FunctionRef(key.crc, key.functionIndex);
      && (r == NoProcess <==> key.pid == 0)
      && (r == UnresolvedName <==> key.pid != 0 && ref !in ev.names)
      && (r == NoExecution <==>
            && key.pid != 0 && ref in ev.names
            && forall i :: 0 <= i < |execs| && IsOf(execs[i], key.pid, ev.names[ref]) ==>
                 ev.names[ref] == "" || served[i])
  {
    var ref := FunctionRef(key.crc, key.functionIndex);
    if key.pid != 0 && ref in ev.names {
      CandidatesExact(execs, key.pid, ev.names[ref]);
      PickExact(execs, served, Candidates(execs, key.pid, ev.names[ref]));
      assert forall i :: 0 <= i < |execs| ==>
        (Runs(execs[i], key.pid, ev.names[ref]) <==> IsOf(execs[i], key.pid, ev.names[ref]) && ev.names[ref] != "");
    }
  }

  /** At least two executions of the snapshot are of that process and kernel, served or not. */
  ghost predicate Several(execs: seq<Exec>, pid: uint32, name: string) {
    exists i, j :: 0 <= i < j < |execs| && IsOf(execs[i], pid, name) && IsOf(execs[j], pid, name)
  }

  ghost predicate IsOf(e: Exec, pid: uint32, name: string) { e.correlation.pid == pid && e.kernelName == name }

  /** How sure a join by process and kernel name is. */
  ghost function Certainty(ev: Evidence, execs: seq<Exec>, key: ModuleKey): PcAttrib
    requires FunctionRef(key.crc, key.functionIndex) in ev.names
  {
    if key.pid in ev.multiDevice then KernelMultiDevice
    else if Several(execs, key.pid, ev.names[FunctionRef(key.crc, key.functionIndex)]) then KernelAmbiguous
    else Kernel
  }

  /** A group that joins is labelled by what could have been meant: its process was on
      several devices, or else several executions run its kernel, or else neither. */
  lemma DecideLabels(ev: Evidence, execs: seq<Exec>, served: seq<bool>, key: ModuleKey)
    requires |served| == |execs| && Decide(ev, execs, served, key).Joined?
    ensures FunctionRef(key.crc, key.functionIndex) in ev.names
    ensures Decide(ev, execs, served, key).attrib == Certainty(ev, execs, key)
  {
    var name := ev.names[FunctionRef(key.crc, key.functionIndex)];
    var target := Decide(ev, execs, served, key).target;
    CandidatesExact(execs, key.pid, name);
    PickExact(execs, served, Candidates(execs, key.pid, name));
    assert Runs(execs[target], key.pid, name);
    SeveralIff(execs, key.pid, name);
  }

  lemma SeveralIff(execs: seq<Exec>, pid: uint32, name: string)
    requires pid != 0 && name != ""
    ensures Several(execs, pid, name) <==> |Candidates(execs, pid, name)| > 1
  {
    var cs := Candidates(execs, pid, name);
    CandidatesExact(execs, pid, name);
    if |cs| > 1 {
      var i, j := cs[0], cs[1];
      assert i in cs && j in cs && i < j;
      assert IsOf(execs[i], pid, name) && IsOf(execs[j], pid, name);
    }
    if i, j :| 0 <= i < j < |execs| && IsOf(execs[i], pid, name) && IsOf(execs[j], pid, name) {
      assert Runs(execs[i], pid, name) && Runs(execs[j], pid, name);
      TwoIn(cs, i, j);
    }
  }

  lemma TwoIn(cs: seq<nat>, i: nat, j: nat)
    requires i in cs && j in cs && i != j
    ensures |cs| > 1
  {
    var x :| 0 <= x < |cs| && cs[x] == i;
    var y :| 0 <= y < |cs| && cs[y] == j;
    assert x != y;
  }

  /** Some group examined joined execution i with that label. */
  ghost predicate JoinedAs(ev: Evidence, execs: seq<Exec>, served: seq<bool>, keys: seq<ModuleKey>, i: nat, a: PcAttrib)
    requires |served| == |execs|
  {
    exists k :: 0 <= k < |keys| && Decide(ev, execs, served, keys[k]) == Joined(i, a)
  }

  lemma JoinedNext(ev: Evidence, execs: seq<Exec>, served: seq<bool>, keys: seq<ModuleKey>, i: nat, a: PcAttrib)
    requires |served| == |execs| && keys != []
    ensures var n := |keys| - 1;
      JoinedAs(ev, execs, served, keys, i, a) <==>
        JoinedAs(ev, execs, served, keys[..n], i, a) || Decide(ev, execs, served, keys[n]) == Joined(i, a)
  {
    var n := |keys| - 1;
    assert forall k :: 0 <= k < n ==> keys[..n][k] == keys[k];
  }

  /** The worst label of the groups that joined an execution: several devices, before
      several executions, before neither, before no group at all. */
  ghost function Worst(multi: bool, ambiguous: bool, sure: bool): PcAttrib {
    if multi then KernelMultiDevice else if ambiguous then KernelAmbiguous else if sure then Kernel else Unset
  }

  lemma {:induction false} PlacedWorst(ev: Evidence, execs: seq<Exec>, served: seq<bool>, j: Join,
                                       keys: seq<ModuleKey>, i: nat)
    requires |served| == |execs| == |j.shares| == |j.attribs| && i < |execs| && j.attribs[i] == Unset
    ensures Placed(ev, execs, served, j, keys).attribs[i]
      == Worst(JoinedAs(ev, execs, served, keys, i, KernelMultiDevice),
               JoinedAs(ev, execs, served, keys, i, KernelAmbiguous), JoinedAs(ev, execs, served, keys, i, Kernel))
  {
    if keys != [] {
      var n := |keys| - 1;
      PlacedWorst(ev, execs, served, j, keys[..n], i);
      JoinedNext(ev, execs, served, keys, i, KernelMultiDevice);
      JoinedNext(ev, execs, served, keys, i, KernelAmbiguous);
      JoinedNext(ev, execs, served, keys, i, Kernel);
    }
  }

  // ----- What the exact join gives.

  /** The first execution of a correlation in a snapshot takes everything waiting under it,
      any other takes nothing, and what no execution named stays. */
  lemma {:induction false} ExactFirst(q: Line<Correlation>, execs: seq<Exec>, i: nat)
    requires Distinct(q) && i < |execs|
    ensures var first := !Named(execs[..i], execs[i].correlation);
      && ExactShares(q, execs)[i] == (if first then Waiting(q, execs[i].correlation) else [])
      && (ExactServed(q, execs)[i] <==> first && Holds(q, execs[i].correlation))
  {
    var n := |execs| - 1;
    if i < n {
      assert execs[..n][..i] == execs[..i];
      ExactFirst(q, execs[..n], i);
    } else {
      ExactLeaves(q, execs[..n], execs[n].correlation);
    }
  }

  ghost predicate Named(execs: seq<Exec>, c: Correlation) {
    exists k :: 0 <= k < |execs| && execs[k].correlation == c
  }

  lemma NamedNext(execs: seq<Exec>, c: Correlation)
    requires execs != []
    ensures Named(execs, c) <==> Named(execs[..|execs| - 1], c) || execs[|execs| - 1].correlation == c
  {
    var n := |execs| - 1;
    assert forall k :: 0 <= k < n ==> execs[..n][k] == execs[k];
  }

  lemma {:induction false} ExactLeaves(q: Line<Correlation>, execs: seq<Exec>, c: Correlation)
    requires Distinct(q)
    ensures Distinct(AfterExact(q, execs))
    ensures Find(AfterExact(q, execs), c) == if Named(execs, c) then None else Find(q, c)
  {
    if execs != [] {
      var n := |execs| - 1;
      ExactLeaves(q, execs[..n], c);
      NamedNext(execs, c);
      var mid := AfterExact(q, execs[..n]);
      WithoutDistinct(mid, execs[n].correlation);
      FindWithout(mid, execs[n].correlation, c);
    }
  }

  lemma {:induction false} FindWithout<K(!new)>(q: Line<K>, gone: K, key: K)
    requires Distinct(q)
    ensures Find(Without(q, gone), key) == if key == gone then None else Find(q, key)
  {
    if q != [] {
      HoldsRest(q, q[0].key);
      WithoutDrops(q, gone);
      FindWithout(q[1..], gone, key);
    }
  }

  // ----- The order groups are examined in.

  predicate TextBefore(a: string, b: string) {
    if b == [] then false
    else if a == [] then true
    else a[0] < b[0] || (a[0] == b[0] && TextBefore(a[1..], b[1..]))
  }

  lemma {:induction false} TextOrder(a: string, b: string, c: string)
    ensures a != b ==> (TextBefore(a, b) <==> !TextBefore(b, a))
    ensures TextBefore(a, b) && TextBefore(b, c) ==> TextBefore(a, c)
    ensures !TextBefore(a, a)
  {
    if a != [] && b != [] {
      assert a == [a[0]] + a[1..] && b == [b[0]] + b[1..];
      TextOrder(a[1..], b[1..], if c == [] then [] else c[1..]);
    } else if a != [] {
      TextOrder(a[1..], [], []);
    }
  }

  /** By process, then binary, then function, then backend. */
  predicate Before(a: ModuleKey, b: ModuleKey) {
    if a.pid != b.pid then a.pid < b.pid
    else if a.crc != b.crc then a.crc < b.crc
    else if a.functionIndex != b.functionIndex then a.functionIndex < b.functionIndex
    else TextBefore(a.backend, b.backend)
  }

  lemma KeyOrder(a: ModuleKey, b: ModuleKey, c: ModuleKey)
    ensures a != b ==> (Before(a, b) <==> !Before(b, a))
    ensures Before(a, b) && Before(b, c) ==> Before(a, c)
  {
    TextOrder(a.backend, b.backend, c.backend);
  }

  /** Every key once, in order. */
  ghost predicate Ascending(keys: seq<ModuleKey>) {
    keys == []
    || (AllBefore(keys[..|keys| - 1], keys[|keys| - 1]) && Ascending(keys[..|keys| - 1]))
  }

  ghost predicate AllBefore(keys: seq<ModuleKey>, key: ModuleKey) {
    forall k :: k in keys ==> Before(k, key)
  }

  function InsertKey(keys: seq<ModuleKey>, key: ModuleKey): seq<ModuleKey> {
    if keys == [] || Before(keys[|keys| - 1], key) then keys + [key]
    else InsertKey(keys[..|keys| - 1], key) + [keys[|keys| - 1]]
  }

  lemma {:induction false} InsertAscends(keys: seq<ModuleKey>, key: ModuleKey)
    requires Ascending(keys) && key !in keys
    ensures Ascending(InsertKey(keys, key)) && |InsertKey(keys, key)| == |keys| + 1
    ensures forall k :: k in InsertKey(keys, key) <==> k in keys || k == key
  {
    var n := |keys| - 1;
    if keys == [] || Before(keys[n], key) {
      assert (keys + [key])[..|keys|] == keys;
      forall k | k in keys ensures Before(k, key) {
        KeyOrder(k, keys[n], key);
      }
    } else {
      var last, front := keys[n], InsertKey(keys[..n], key);
      assert keys == keys[..n] + [last];
      InsertAscends(keys[..n], key);
      KeyOrder(last, key, key);
      assert (front + [last])[..|front|] == front;
    }
  }

  /** The keys of the store, sorted, so that the same samples give the same profile. */
  method SortedKeys(from: set<ModuleKey>) returns (keys: seq<ModuleKey>)
    ensures Ascending(keys) && |keys| == |from| && forall k :: k in keys <==> k in from
  {
    keys := [];
    var left := from;
    while left != {}
      invariant left <= from && Ascending(keys) && |keys| + |left| == |from|
      invariant forall k :: k in keys <==> k in from - left
    {
      var k :| k in left;
      InsertAscends(keys, k);
      keys := InsertKey(keys, k);
      left := left - {k};
    }
  }

  /** Each group is examined once: what is left waiting is exactly what did not join. */
  lemma {:induction false} PlacedLeaves(ev: Evidence, execs: seq<Exec>, served: seq<bool>, j: Join,
                                        keys: seq<ModuleKey>, key: ModuleKey)
    requires |served| == |execs| == |j.shares| == |j.attribs|
    ensures Holds(Placed(ev, execs, served, j, keys).byModule, key) <==>
      Holds(j.byModule, key) && !(key in keys && Decide(ev, execs, served, key).Joined?)
  {
    if keys != [] {
      var n := |keys| - 1;
      assert keys == keys[..n] + [keys[n]];
      PlacedLeaves(ev, execs, served, j, keys[..n], key);
      HoldsWithout(Placed(ev, execs, served, j, keys[..n]).byModule, keys[n], key);
    }
  }

  lemma {:induction false} PlacedCounts(ev: Evidence, execs: seq<Exec>, served: seq<bool>, j: Join,
                                        keys: seq<ModuleKey>)
    requires |served| == |execs| == |j.shares| == |j.attribs|
    ensures Placed(ev, execs, served, j, keys).stats.Total() == j.stats.Total() + |keys|
  {
    if keys != [] {
      PlacedCounts(ev, execs, served, j, keys[..|keys| - 1]);
    }
  }

  lemma HoldsWithout(q: Line<ModuleKey>, gone: ModuleKey, key: ModuleKey)
    ensures Holds(Without(q, gone), key) <==> Holds(q, key) && key != gone
  {
    WithoutDrops(q, gone);
    var r := Without(q, gone);
    if Holds(q, key) && key != gone {
      var i :| 0 <= i < |q| && q[i].key == key;
      assert q[i] in r;
    }
    if Holds(r, key) {
      var i :| 0 <= i < |r| && r[i].key == key;
      assert r[i] in r;
    }
  }

  // ----- The imperative joins.

  datatype ExecKey = ExecKey(pid: uint32, kernelName: string)

  function At(index: map<ExecKey, seq<nat>>, key: ExecKey): seq<nat> {
    if key in index then index[key] else []
  }

  ghost predicate Indexes(index: map<ExecKey, seq<nat>>, execs: seq<Exec>) {
    forall pid, name :: At(index, ExecKey(pid, name)) == Candidates(execs, pid, name)
  }

  /** Indexes every named execution of a snapshot. */
  method IndexByKernel(execs: seq<Exec>) returns (index: map<ExecKey, seq<nat>>)
    ensures Indexes(index, execs)
  {
    index := map[];
    for i := 0 to |execs|
      invariant Indexes(index, execs[..i])
    {
      assert execs[..i + 1][..i] == execs[..i];
      var e := execs[i];
      if e.kernelName != "" && e.correlation.pid != 0 {
        var key := ExecKey(e.correlation.pid, e.kernelName);
        index := index[key := At(index, key) + [i]];
      }
    }
    assert execs[..|execs|] == execs;
  }

  method FindTarget(execs: seq<Exec>, served: seq<bool>, cs: seq<nat>) returns (target: int)
    requires |served| == |execs| && forall i :: 0 <= i < |cs| ==> cs[i] < |execs|
    ensures target == Pick(execs, served, cs)
  {
    target := -1;
    for k := 0 to |cs|
      invariant -1 <= target < |execs| && target == Pick(execs, served, cs[..k])
    {
      assert cs[..k + 1][..k] == cs[..k];
      var i := cs[k];
      if !served[i] {
        if target < 0 || execs[i].startNs < execs[target].startNs {
          target := i;
        }
      }
    }
    assert cs[..|cs|] == cs;
  }

  lemma ExaminedNext(ev: Evidence, execs: seq<Exec>, served: seq<bool>, j: Join, keys: seq<ModuleKey>, k: nat)
    requires |served| == |execs| == |j.shares| == |j.attribs| && k < |keys|
    ensures Placed(ev, execs, served, j, keys[..k + 1])
      == Place(Placed(ev, execs, served, j, keys[..k]), keys[k], Decide(ev, execs, served, keys[k]))
  {
    assert keys[..k + 1][..k] == keys[..k];
  }

  method Judge(ev: Evidence, execs: seq<Exec>, served: seq<bool>, index: map<ExecKey, seq<nat>>, key: ModuleKey)
    returns (outcome: Outcome)
    requires |served| == |execs|
    requires Indexes(index, execs)
    ensures outcome == Decide(ev, execs, served, key)
  {
    if key.pid == 0 {
      return NoProcess;
    }
    var ref := FunctionRef(key.crc, key.functionIndex);
    if ref !in ev.names {
      return UnresolvedName;
    }
    var candidates := At(index, ExecKey(key.pid, ev.names[ref]));
    var target := FindTarget(execs, served, candidates);
    if target < 0 {
      return NoExecution;
    }
    var attrib := Kernel;
    if |candidates| > 1 {
      attrib := KernelAmbiguous;
    }
    if key.pid in ev.multiDevice {
      attrib := KernelMultiDevice;
    }
    outcome := Joined(target, attrib);
  }

  class SampleIndexes {
    const pending: PendingStore<Correlation>
    const pendingModule: PendingStore<ModuleKey>
    var newestNs: uint64

    ghost predicate Valid()
      reads pending, pending.order, pendingModule, pendingModule.order
    {
      && pending.Valid() && pendingModule.Valid()
      && (pending as object) != pendingModule && (pending.order as object) != pendingModule.order
    }

    ghost function Cfg(): Config { Config(pending.bounds, pendingModule.bounds) }

    ghost function Model(): Stores
      requires pending.order.Valid() && pendingModule.order.Valid()
      reads this, pending, pending.order, pendingModule, pendingModule.order
    {
      Stores(pending.Contents(), pendingModule.Contents(), newestNs)
    }

    constructor (cfg: Config)
      requires cfg.correlations.perGroup >= 1 && cfg.modules.perGroup >= 1
      ensures Valid() && Cfg() == cfg && Model() == Stores([], [], 0)
      ensures fresh(pending) && fresh(pending.order) && fresh(pendingModule) && fresh(pendingModule.order)
    {
      pending := new PendingStore(cfg.correlations);
      pendingModule := new PendingStore(cfg.modules);
      newestNs := 0;
    }

    method EmitPCSample(p: PcSample)
      requires Valid()
      modifies this, pending, pending.order, pendingModule, pendingModule.order
      ensures Valid() && Model() == Emitted(Cfg(), old(Model()), p)
      ensures pending.evicted == old(pending.evicted) + EvictedByCorrelation(Cfg(), old(Model()), p)
      ensures pendingModule.evicted == old(pendingModule.evicted) + EvictedByModule(Cfg(), old(Model()), p)
    {
      newestNs := Observed(newestNs, p.timeNs);
      if !p.correlation.Present() {
        pendingModule.Add(ModuleKeyFor(p), p, newestNs);
      } else {
        pending.Add(p.correlation, p, newestNs);
      }
    }

    method JoinExact(execs: seq<Exec>) returns (shares: seq<seq<PcSample>>, served: seq<bool>)
      requires Valid()
      modifies pending`byKey, pending`sampleTotal
      ensures Valid() && Model() == old(Model()).(byCorrelation := AfterExact(old(Model()).byCorrelation, execs))
      ensures shares == ExactShares(old(Model()).byCorrelation, execs)
      ensures served == ExactServed(old(Model()).byCorrelation, execs)
    {
      shares, served := [], [];
      ghost var q := pending.Contents();
      for i := 0 to |execs|
        invariant pending.Valid() && pending.Contents() == AfterExact(q, execs[..i])
        invariant shares == ExactShares(q, execs[..i]) && served == ExactServed(q, execs[..i])
      {
        assert execs[..i + 1][..i] == execs[..i];
        var g := pending.Take(execs[i].correlation);
        shares := shares + [if g.Some? then g.value.samples else []];
        served := served + [g.Some?];
      }
      assert execs[..|execs|] == execs;
    }

    method PlaceGroup(key: ModuleKey, outcome: Outcome, had: seq<seq<PcSample>>, labels: seq<PcAttrib>,
                      counted: GroupStats)
      returns (shares: seq<seq<PcSample>>, attribs: seq<PcAttrib>, stats: GroupStats)
      requires pendingModule.Valid()
      requires |had| == |labels| && (outcome.Joined? ==> outcome.target < |had|)
      modifies pendingModule`byKey, pendingModule`sampleTotal
      ensures pendingModule.Valid()
      ensures Join(pendingModule.Contents(), shares, attribs, stats)
        == Place(Join(old(pendingModule.Contents()), had, labels, counted), key, outcome)
    {
      shares, attribs, stats := had, labels, counted.Counting(outcome);
      if outcome.Joined? {
        var t := outcome.target;
        var g := pendingModule.Take(key);
        shares := shares[t := shares[t] + if g.Some? then g.value.samples else []];
        attribs := attribs[t := Worse(attribs[t], outcome.attrib)];
      }
    }

    method JoinModules(ev: Evidence, execs: seq<Exec>, exact: seq<seq<PcSample>>, served: seq<bool>,
                       keys: seq<ModuleKey>)
      returns (shares: seq<seq<PcSample>>, attribs: seq<PcAttrib>, stats: GroupStats)
      requires Valid() && |exact| == |served| == |execs|
      modifies pendingModule`byKey, pendingModule`sampleTotal
      ensures Valid()
      ensures Join(pendingModule.Contents(), shares, attribs, stats)
        == Placed(ev, execs, served, Opening(old(pendingModule.Contents()), exact), keys)
    {
      shares, attribs := exact, Blank(|execs|);
      stats := GroupStats(0, 0, 0, 0);
      var index := IndexByKernel(execs);
      ghost var start := Opening(pendingModule.Contents(), exact);
      for k := 0 to |keys|
        invariant pendingModule.Valid()
        invariant Join(pendingModule.Contents(), shares, attribs, stats) == Placed(ev, execs, served, start, keys[..k])
      {
        ExaminedNext(ev, execs, served, start, keys, k);
        var outcome := Judge(ev, execs, served, index, keys[k]);
        shares, attribs, stats := PlaceGroup(keys[k], outcome, shares, attribs, stats);
      }
      assert keys[..|keys|] == keys;
    }

    /** The module join of a snapshot: every group once, in a fixed order. */
    method JoinPending(ev: Evidence, execs: seq<Exec>, exact: seq<seq<PcSample>>, served: seq<bool>)
      returns (shares: seq<seq<PcSample>>, attribs: seq<PcAttrib>, stats: GroupStats, keys: seq<ModuleKey>)
      requires Valid() && |exact| == |served| == |execs|
      modifies pendingModule`byKey, pendingModule`sampleTotal
      ensures Valid() && Ascending(keys) && |keys| == |old(pendingModule.byKey)|
      ensures forall k :: k in keys <==> k in old(pendingModule.byKey)
      ensures stats.Total() == |keys|
      ensures Join(pendingModule.Contents(), shares, attribs, stats)
        == Placed(ev, execs, served, Opening(old(pendingModule.Contents()), exact), keys)
    {
      assert |pendingModule.byKey.Keys| == |pendingModule.byKey|;
      keys := SortedKeys(pendingModule.byKey.Keys);
      ghost var opening := Opening(pendingModule.Contents(), exact);
      PlacedCounts(ev, execs, served, opening, keys);
      shares, attribs, stats := JoinModules(ev, execs, exact, served, keys);
    }
  }
}
