/** The fallback join for executions that carry no correlation (gpu/timeline.go): launches
    grouped and sorted once, searched by bisection, against the scan it stands for. */
module HeuristicJoin {
  import opened Machine
  import opened GpuEvents

  // ----- The rule, as a scan would state it.

  /** The process a launch is attributed to. */
  function ProcessOf(l: Launch): uint32 {
    if l.context.pid != 0 then l.context.pid else l.correlation.pid
  }

  predicate SameWork(l: Launch, e: Exec) {
    l.queue == e.queue && l.kernelName == e.kernelName
  }

  predicate Precedes(l: Launch, e: Exec) { l.timeNs <= e.startNs }

  function Earliest(e: Exec, windowNs: uint64): uint64 {
    if windowNs > 0 && e.startNs > windowNs then e.startNs - windowNs else 0
  }

  /** Submitted before the execution began, and no longer ago than the window. */
  predicate InWindow(l: Launch, e: Exec, windowNs: uint64) {
    Precedes(l, e) && Earliest(e, windowNs) <= l.timeNs
  }

  /** The launches of a scan that lie in the window. */
  function Hits(s: seq<Launch>, e: Exec, windowNs: uint64): seq<Launch> {
    if s == [] then []
    else Hits(s[..|s| - 1], e, windowNs) + if InWindow(s[|s| - 1], e, windowNs) then [s[|s| - 1]] else []
  }

  lemma {:induction false} HitsExact(s: seq<Launch>, e: Exec, windowNs: uint64, x: Launch)
    ensures multiset(Hits(s, e, windowNs))[x] == if InWindow(x, e, windowNs) then multiset(s)[x] else 0
  {
    if s != [] {
      HitsExact(s[..|s| - 1], e, windowNs, x);
      assert s == s[..|s| - 1] + [s[|s| - 1]];
    }
  }

  /** The order candidates are listed in does not matter to the scan. */
  lemma HitsPermuted(s: seq<Launch>, t: seq<Launch>, e: Exec, windowNs: uint64)
    requires multiset(s) == multiset(t)
    ensures multiset(Hits(s, e, windowNs)) == multiset(Hits(t, e, windowNs))
    ensures |Hits(s, e, windowNs)| == |Hits(t, e, windowNs)|
  {
    forall x ensures multiset(Hits(s, e, windowNs))[x] == multiset(Hits(t, e, windowNs))[x] {
      HitsExact(s, e, windowNs, x);
      HitsExact(t, e, windowNs, x);
    }
    assert |Hits(s, e, windowNs)| == |multiset(Hits(s, e, windowNs))|;
    assert |Hits(t, e, windowNs)| == |multiset(Hits(t, e, windowNs))|;
  }

  /** The entries of one key. */
  function OfKey<K(==)>(entries: seq<Launch>, keyOf: Launch -> K, key: K): seq<Launch> {
    if entries == [] then []
    else
      var n := |entries| - 1;
      OfKey(entries[..n], keyOf, key) + if keyOf(entries[n]) == key then [entries[n]] else []
  }

  lemma {:induction false} OfKeyExact<K(!new)>(entries: seq<Launch>, keyOf: Launch -> K, key: K, x: Launch)
    ensures x in OfKey(entries, keyOf, key) <==> x in entries && keyOf(x) == key
  {
    if entries != [] {
      var n := |entries| - 1;
      OfKeyExact(entries[..n], keyOf, key, x);
      assert entries == entries[..n] + [entries[n]];
    }
  }

  // ----- Sorting and searching.

  ghost predicate Sorted(s: seq<Launch>) {
    forall i, j :: 0 <= i < j < |s| ==> s[i].timeNs <= s[j].timeNs
  }

  function InsertByTime(s: seq<Launch>, l: Launch): seq<Launch> {
    if s == [] || s[|s| - 1].timeNs <= l.timeNs then s + [l]
    else InsertByTime(s[..|s| - 1], l) + [s[|s| - 1]]
  }

  /** The library sort. Nothing below depends on where it leaves launches of equal time. */
  function SortByTime(s: seq<Launch>): seq<Launch> {
    if s == [] then [] else InsertByTime(SortByTime(s[..|s| - 1]), s[|s| - 1])
  }

  lemma {:induction false} InsertPermutes(s: seq<Launch>, l: Launch)
    ensures multiset(InsertByTime(s, l)) == multiset(s) + multiset{l}
  {
    if !(s == [] || s[|s| - 1].timeNs <= l.timeNs) {
      InsertPermutes(s[..|s| - 1], l);
      assert s == s[..|s| - 1] + [s[|s| - 1]];
    }
  }

  lemma {:induction false} InsertSorts(s: seq<Launch>, l: Launch)
    requires Sorted(s)
    ensures Sorted(InsertByTime(s, l))
  {
    if !(s == [] || s[|s| - 1].timeNs <= l.timeNs) {
      var n := |s| - 1;
      InsertSorts(s[..n], l);
      InsertPermutes(s[..n], l);
      var front := InsertByTime(s[..n], l);
      forall i | 0 <= i < |front| ensures front[i].timeNs <= s[n].timeNs {
        assert front[i] in multiset(front);
        assert front[i] in s[..n] || front[i] == l;
      }
    }
  }

  lemma {:induction false} SortExact(s: seq<Launch>)
    ensures Sorted(SortByTime(s)) && multiset(SortByTime(s)) == multiset(s)
  {
    if s != [] {
      var n := |s| - 1;
      SortExact(s[..n]);
      InsertSorts(SortByTime(s[..n]), s[n]);
      InsertPermutes(SortByTime(s[..n]), s[n]);
      assert s == s[..n] + [s[n]];
    }
  }

  /** The first of the leading n candidates no earlier than a time, or n. */
  method Search(s: seq<Launch>, n: nat, timeNs: int) returns (at: nat)
    requires Sorted(s) && n <= |s|
    ensures at <= n
    ensures forall i :: 0 <= i < at ==> s[i].timeNs < timeNs
    ensures forall i :: at <= i < n ==> s[i].timeNs >= timeNs
  {
    var lo, hi := 0, n;
    while lo < hi
      invariant 0 <= lo <= hi <= n
      invariant forall i :: 0 <= i < lo ==> s[i].timeNs < timeNs
      invariant forall i :: hi <= i < n ==> s[i].timeNs >= timeNs
    {
      var mid := lo + (hi - lo) / 2;
      if s[mid].timeNs < timeNs {
        lo := mid + 1;
      } else {
        hi := mid;
      }
    }
    at := lo;
  }

  // ----- One lookup.

  datatype Match = Match(launch: Option<Launch>, ambiguous: bool, outOfWindow: bool)

  ghost predicate Latest(hits: seq<Launch>, best: Launch) {
    best in hits && forall l :: l in hits ==> l.timeNs <= best.timeNs
  }

  ghost predicate AnyPrecedes(s: seq<Launch>, e: Exec) {
    exists l :: l in s && Precedes(l, e)
  }

  /** The answer a scan of the same candidates gives: the latest in the window, ambiguous
      when there is another, out of window when only the window excluded them all. */
  ghost predicate Scans(s: seq<Launch>, e: Exec, windowNs: uint64, m: Match) {
    var hits := Hits(s, e, windowNs);
    && (m.launch.Some? <==> |hits| > 0)
    && (m.launch.Some? ==> Latest(hits, m.launch.value))
    && (m.ambiguous <==> |hits| > 1)
    && (m.outOfWindow <==> |hits| == 0 && AnyPrecedes(s, e))
  }

  lemma {:induction false} HitsRange(s: seq<Launch>, e: Exec, windowNs: uint64, lo: nat, hi: nat)
    requires lo <= hi <= |s|
    requires forall i :: 0 <= i < |s| ==> (InWindow(s[i], e, windowNs) <==> lo <= i < hi)
    ensures Hits(s, e, windowNs) == s[lo..hi]
  {
    if s != [] {
      var n := |s| - 1;
      if hi <= n {
        HitsRange(s[..n], e, windowNs, lo, hi);
      } else if lo <= n {
        HitsRange(s[..n], e, windowNs, lo, n);
        assert s[..n][lo..n] + [s[n]] == s[lo..hi];
      } else {
        HitsRange(s[..n], e, windowNs, n, n);
      }
    }
  }

  method FindLaunch(group: seq<Launch>, e: Exec, windowNs: uint64) returns (m: Match)
    requires Sorted(group)
    ensures Scans(group, e, windowNs, m)
  {
    var insertion := Search(group, |group|, e.startNs + 1);
    if insertion == 0 {
      HitsRange(group, e, windowNs, 0, 0);
      return Match(None, false, false);
    }
    var lower := 0;
    if windowNs > 0 {
      var earliest := 0;
      if e.startNs > windowNs {
        earliest := e.startNs - windowNs;
      }
      lower := Search(group, insertion, earliest);
    }
    HitsRange(group, e, windowNs, lower, insertion);
    if insertion - lower == 0 {
      assert group[0] in group && Precedes(group[0], e);
      return Match(None, false, true);
    }
    m := Match(Some(group[insertion - 1]), insertion - lower > 1, false);
  }

  lemma ScansPermuted(s: seq<Launch>, t: seq<Launch>, e: Exec, windowNs: uint64, m: Match)
    requires multiset(s) == multiset(t) && Scans(s, e, windowNs, m)
    ensures Scans(t, e, windowNs, m)
  {
    HitsPermuted(s, t, e, windowNs);
    assert forall l :: l in s <==> l in multiset(s);
    assert forall l :: l in t <==> l in multiset(t);
    var a, b := Hits(s, e, windowNs), Hits(t, e, windowNs);
    assert forall l :: l in a <==> l in multiset(a);
    assert forall l :: l in b <==> l in multiset(b);
  }

  // ----- The indexes.

  datatype GroupKey = GroupKey(pid: uint32, queue: Queue, kernelName: string)
  datatype AnyProcessKey = AnyProcessKey(queue: Queue, kernelName: string)

  function KeyOf(l: Launch): GroupKey { GroupKey(ProcessOf(l), l.queue, l.kernelName) }
  function AnyKeyOf(l: Launch): AnyProcessKey { AnyProcessKey(l.queue, l.kernelName) }

  function At<K(==)>(index: map<K, seq<Launch>>, key: K): seq<Launch> {
    if key in index then index[key] else []
  }

  /** A group is the entries of its key, in order of time. */
  ghost predicate GroupAt<K>(index: map<K, seq<Launch>>, entries: seq<Launch>, keyOf: Launch -> K, key: K) {
    && Sorted(At(index, key))
    && multiset(At(index, key)) == multiset(OfKey(entries, keyOf, key))
  }

  ghost predicate Indexes<K(!new)>(index: map<K, seq<Launch>>, entries: seq<Launch>, keyOf: Launch -> K) {
    forall key :: GroupAt(index, entries, keyOf, key)
  }

  method Bucket<K(==, !new)>(entries: seq<Launch>, keyOf: Launch -> K) returns (buckets: map<K, seq<Launch>>)
    ensures forall key :: At(buckets, key) == OfKey(entries, keyOf, key)
  {
    buckets := map[];
    for i := 0 to |entries|
      invariant forall key :: At(buckets, key) == OfKey(entries[..i], keyOf, key)
    {
      assert entries[..i + 1][..i] == entries[..i];
      var key := keyOf(entries[i]);
      buckets := buckets[key := At(buckets, key) + [entries[i]]];
    }
    assert entries[..|entries|] == entries;
  }

  method GroupByTime<K(==, !new)>(entries: seq<Launch>, keyOf: Launch -> K) returns (index: map<K, seq<Launch>>)
    ensures Indexes(index, entries, keyOf)
  {
    var buckets := Bucket(entries, keyOf);
    index := map key | key in buckets :: SortByTime(buckets[key]);
    forall key ensures GroupAt(index, entries, keyOf, key) {
      assert At(buckets, key) == OfKey(entries, keyOf, key);
      SortExact(At(buckets, key));
    }
  }

  // ----- The join of one execution, and of a snapshot's.

  datatype Decision = Decision(launch: Option<Launch>, ambiguous: bool, outOfWindow: bool, blocked: bool)

  /** The rule over the unindexed cache, process first. */
  ghost predicate Decided(entries: seq<Launch>, e: Exec, windowNs: uint64, d: Decision) {
    && (e.correlation.pid == 0 ==> d.launch == None && !d.ambiguous && !d.outOfWindow)
    && (e.correlation.pid != 0 ==>
          Scans(OfKey(entries, KeyOf, GroupKey(e.correlation.pid, e.queue, e.kernelName)), e, windowNs,
                Match(d.launch, d.ambiguous, d.outOfWindow)))
    && (d.blocked <==> d.launch == None && exists l :: l in entries && SameWork(l, e) && InWindow(l, e, windowNs))
  }

  /** What a process-blind join would have found. */
  lemma BlindScan(entries: seq<Launch>, e: Exec, windowNs: uint64)
    ensures |Hits(OfKey(entries, AnyKeyOf, AnyProcessKey(e.queue, e.kernelName)), e, windowNs)| > 0
      <==> exists l :: l in entries && SameWork(l, e) && InWindow(l, e, windowNs)
  {
    var s := OfKey(entries, AnyKeyOf, AnyProcessKey(e.queue, e.kernelName));
    var hits := Hits(s, e, windowNs);
    if |hits| > 0 {
      HitsExact(s, e, windowNs, hits[0]);
      assert hits[0] in multiset(hits);
      OfKeyExact(entries, AnyKeyOf, AnyProcessKey(e.queue, e.kernelName), hits[0]);
    }
    forall l | l in entries && SameWork(l, e) && InWindow(l, e, windowNs) ensures |hits| > 0 {
      OfKeyExact(entries, AnyKeyOf, AnyProcessKey(e.queue, e.kernelName), l);
      HitsExact(s, e, windowNs, l);
      assert l in multiset(s);
      assert l in multiset(hits);
    }
  }

  /** The launch named this process, or named none and its correlation did. */
  ghost predicate SubmittedBy(l: Launch, pid: uint32) {
    l.context.pid == pid || (l.context.pid == 0 && l.correlation.pid == pid)
  }

  /** The same kernel on the same queue, submitted by the execution's own process. */
  ghost predicate Own(l: Launch, e: Exec) {
    l.queue == e.queue && l.kernelName == e.kernelName && SubmittedBy(l, e.correlation.pid)
  }

  /** Submitted no later than the execution began and, where there is a window, no more than
      that before. */
  ghost predicate Near(l: Launch, e: Exec, windowNs: uint64) {
    l.timeNs <= e.startNs && (windowNs == 0 || e.startNs - l.timeNs <= windowNs)
  }

  lemma NearIff(l: Launch, e: Exec, windowNs: uint64)
    ensures InWindow(l, e, windowNs) <==> Near(l, e, windowNs)
    ensures e.correlation.pid != 0 ==>
      (KeyOf(l) == GroupKey(e.correlation.pid, e.queue, e.kernelName) <==> Own(l, e))
  {
  }

  ghost predicate Candidate(entries: seq<Launch>, e: Exec, windowNs: uint64, i: nat) {
    i < |entries| && Own(entries[i], e) && Near(entries[i], e, windowNs)
  }

  ghost predicate OneCandidate(entries: seq<Launch>, e: Exec, windowNs: uint64) {
    exists i :: Candidate(entries, e, windowNs, i)
  }

  ghost predicate TwoCandidates(entries: seq<Launch>, e: Exec, windowNs: uint64) {
    exists i, j :: i < j && Candidate(entries, e, windowNs, i) && Candidate(entries, e, windowNs, j)
  }

  lemma CandidatesNext(entries: seq<Launch>, e: Exec, windowNs: uint64)
    requires entries != []
    ensures var n := |entries| - 1;
      && (OneCandidate(entries, e, windowNs) <==>
            OneCandidate(entries[..n], e, windowNs) || Candidate(entries, e, windowNs, n))
      && (TwoCandidates(entries, e, windowNs) <==>
            || TwoCandidates(entries[..n], e, windowNs)
            || (OneCandidate(entries[..n], e, windowNs) && Candidate(entries, e, windowNs, n)))
  {
    var n := |entries| - 1;
    assert forall i: nat :: i < n ==> (Candidate(entries[..n], e, windowNs, i) <==> Candidate(entries, e, windowNs, i));
  }

  lemma HitsNext(s: seq<Launch>, l: Launch, e: Exec, windowNs: uint64)
    ensures Hits(s + [l], e, windowNs) == Hits(s, e, windowNs) + if InWindow(l, e, windowNs) then [l] else []
  {
    assert (s + [l])[..|s|] == s;
  }

  lemma {:induction false} CandidatesCounted(entries: seq<Launch>, e: Exec, windowNs: uint64)
    requires e.correlation.pid != 0
    ensures var n := |Hits(OfKey(entries, KeyOf, GroupKey(e.correlation.pid, e.queue, e.kernelName)), e, windowNs)|;
      (n >= 1 <==> OneCandidate(entries, e, windowNs)) && (n >= 2 <==> TwoCandidates(entries, e, windowNs))
  {
    if entries != [] {
      var n := |entries| - 1;
      CandidatesCounted(entries[..n], e, windowNs);
      CandidatesNext(entries, e, windowNs);
      NearIff(entries[n], e, windowNs);
      var key := GroupKey(e.correlation.pid, e.queue, e.kernelName);
      var before := OfKey(entries[..n], KeyOf, key);
      HitsNext(before, entries[n], e, windowNs);
      assert OfKey(entries, KeyOf, key) == if Own(entries[n], e) then before + [entries[n]] else before;
      assert Candidate(entries, e, windowNs, n) <==> Own(entries[n], e) && Near(entries[n], e, windowNs);
    }
  }

  /** What the rule means for an execution that names its process, in numbers: it is given a
      launch exactly when its own process submitted that kernel on that queue in the window,
      the latest such, ambiguous exactly when there were two; out of window exactly when
      there were some before it and none in the window; and a launch a process-blind join
      would have given it instead was always another process's. */
  lemma JoinExact(entries: seq<Launch>, e: Exec, windowNs: uint64, d: Decision, l: Launch)
    requires Decided(entries, e, windowNs, d) && e.correlation.pid != 0 && l in entries
    ensures d.launch.Some? <==> OneCandidate(entries, e, windowNs)
    ensures d.ambiguous <==> TwoCandidates(entries, e, windowNs)
    ensures d.launch.Some? ==>
      d.launch.value in entries && Own(d.launch.value, e) && Near(d.launch.value, e, windowNs)
    ensures Own(l, e) && Near(l, e, windowNs) ==> d.launch.Some? && l.timeNs <= d.launch.value.timeNs
    ensures d.blocked && l.queue == e.queue && l.kernelName == e.kernelName && Near(l, e, windowNs) ==>
      !SubmittedBy(l, e.correlation.pid)
    ensures d.launch == None && Own(l, e) && l.timeNs <= e.startNs ==> d.outOfWindow
    ensures d.outOfWindow && Own(l, e) ==> !Near(l, e, windowNs)
  {
    var key := GroupKey(e.correlation.pid, e.queue, e.kernelName);
    var s := OfKey(entries, KeyOf, key);
    var hits := Hits(s, e, windowNs);
    CandidatesCounted(entries, e, windowNs);
    NearIff(l, e, windowNs);
    OfKeyExact(entries, KeyOf, key, l);
    if d.launch.Some? {
      HitsExact(s, e, windowNs, d.launch.value);
      assert d.launch.value in multiset(hits);
      OfKeyExact(entries, KeyOf, key, d.launch.value);
      NearIff(d.launch.value, e, windowNs);
    }
    if Own(l, e) && Near(l, e, windowNs) {
      HitsExact(s, e, windowNs, l);
      assert l in multiset(s);
      assert l in multiset(hits);
    }
  }

  /** An index is built once a snapshot first needs it, and then kept. */
  ghost predicate Lazy<K(!new)>(index: Option<map<K, seq<Launch>>>, entries: seq<Launch>, keyOf: Launch -> K) {
    index.Some? ==> Indexes(index.value, entries, keyOf)
  }

  method LookUp<K(==, !new)>(known: Option<map<K, seq<Launch>>>, entries: seq<Launch>, keyOf: Launch -> K, key: K,
                             e: Exec, windowNs: uint64)
    returns (built: Option<map<K, seq<Launch>>>, m: Match)
    requires Lazy(known, entries, keyOf)
    ensures Lazy(built, entries, keyOf) && Scans(OfKey(entries, keyOf, key), e, windowNs, m)
  {
    built := known;
    if built == None {
      var index := GroupByTime(entries, keyOf);
      built := Some(index);
    }
    var group := At(built.value, key);
    assert GroupAt(built.value, entries, keyOf, key);
    m := FindLaunch(group, e, windowNs);
    ScansPermuted(group, OfKey(entries, keyOf, key), e, windowNs, m);
  }

  datatype JoinKind = Unmatched | ExactJoin | HeuristicGuess

  datatype View = View(kind: JoinKind, decision: Decision)

  /** The whole rule for one execution: a correlation joins exactly or not at all; only an
      execution that never carried one is guessed. */
  ghost predicate Viewed(cached: map<Correlation, Launch>, entries: seq<Launch>, e: Exec, windowNs: uint64, v: View) {
    if e.correlation.Present() then
      && v.decision.launch == (if e.correlation in cached then Some(cached[e.correlation]) else None)
      && v.kind == (if e.correlation in cached then ExactJoin else Unmatched)
      && !v.decision.ambiguous && !v.decision.outOfWindow && !v.decision.blocked
    else
      && Decided(entries, e, windowNs, v.decision)
      && v.kind == (if v.decision.launch.Some? then HeuristicGuess else Unmatched)
  }

  /** matched is the launches joined, each once however many executions found it: what the
      cache is told, and what the matched-launch count counts. */
  datatype JoinStats = JoinStats(exact: nat, heuristic: nat, unmatched: nat, correlationless: nat,
                                 ambiguous: nat, outOfWindow: nat, crossProcessBlocked: nat,
                                 matched: set<Correlation>)

  const NO_JOINS := JoinStats(0, 0, 0, 0, 0, 0, 0, {})

  function Counted(b: bool): nat { if b then 1 else 0 }

  function Tally(execs: seq<Exec>, views: seq<View>): (r: JoinStats)
    requires |execs| == |views|
    ensures r.exact + r.heuristic + r.unmatched == |execs|
  {
    if execs == [] then NO_JOINS
    else
      var n := |execs| - 1;
      TallyOne(Tally(execs[..n], views[..n]), execs[n], views[n])
  }

  function TallyOne(t: JoinStats, e: Exec, v: View): JoinStats {
    JoinStats(t.exact + Counted(v.kind == ExactJoin), t.heuristic + Counted(v.kind == HeuristicGuess),
              t.unmatched + Counted(v.kind == Unmatched), t.correlationless + Counted(!e.correlation.Present()),
              t.ambiguous + Counted(v.decision.ambiguous), t.outOfWindow + Counted(v.decision.outOfWindow),
              t.crossProcessBlocked + Counted(v.decision.blocked),
              if v.decision.launch.Some? then t.matched + {v.decision.launch.value.correlation} else t.matched)
  }

  method JoinGuess(entries: seq<Launch>, e: Exec, windowNs: uint64, own: Option<map<GroupKey, seq<Launch>>>,
                   blind: Option<map<AnyProcessKey, seq<Launch>>>)
    returns (own': Option<map<GroupKey, seq<Launch>>>, blind': Option<map<AnyProcessKey, seq<Launch>>>, d: Decision)
    requires Lazy(own, entries, KeyOf) && Lazy(blind, entries, AnyKeyOf)
    ensures Lazy(own', entries, KeyOf) && Lazy(blind', entries, AnyKeyOf)
    ensures Decided(entries, e, windowNs, d)
  {
    own', blind' := own, blind;
    d := Decision(None, false, false, false);
    if e.correlation.pid != 0 {
      var key := GroupKey(e.correlation.pid, e.queue, e.kernelName);
      var m: Match;
      own', m := LookUp(own, entries, KeyOf, key, e, windowNs);
      d := Decision(m.launch, m.ambiguous, m.outOfWindow, false);
    }
    if d.launch == None {
      var m: Match;
      blind', m := LookUp(blind, entries, AnyKeyOf, AnyProcessKey(e.queue, e.kernelName), e, windowNs);
      BlindScan(entries, e, windowNs);
      d := d.(blocked := m.launch.Some?);
    }
  }

  method JoinOne(cached: map<Correlation, Launch>, entries: seq<Launch>, e: Exec, windowNs: uint64,
                 own: Option<map<GroupKey, seq<Launch>>>, blind: Option<map<AnyProcessKey, seq<Launch>>>)
    returns (own': Option<map<GroupKey, seq<Launch>>>, blind': Option<map<AnyProcessKey, seq<Launch>>>, v: View)
    requires Lazy(own, entries, KeyOf) && Lazy(blind, entries, AnyKeyOf)
    ensures Lazy(own', entries, KeyOf) && Lazy(blind', entries, AnyKeyOf)
    ensures Viewed(cached, entries, e, windowNs, v)
  {
    own', blind' := own, blind;
    if e.correlation.Present() {
      v := View(Unmatched, Decision(None, false, false, false));
      if e.correlation in cached {
        v := View(ExactJoin, Decision(Some(cached[e.correlation]), false, false, false));
      }
    } else {
      var d: Decision;
      own', blind', d := JoinGuess(entries, e, windowNs, own, blind);
      v := View(if d.launch.Some? then HeuristicGuess else Unmatched, d);
    }
  }

  /** caches[i] is the launch cache as the i-th execution's lookup finds it: launches come and
      go while a snapshot is taken. The list of entries is read once, when first needed. */
  ghost predicate ViewedAt(caches: seq<map<Correlation, Launch>>, entries: seq<Launch>, execs: seq<Exec>,
                           windowNs: uint64, views: seq<View>, i: nat)
    requires i < |execs| == |caches| && i < |views|
  {
    Viewed(caches[i], entries, execs[i], windowNs, views[i])
  }

  lemma TallyNext(execs: seq<Exec>, views: seq<View>, v: View)
    requires |views| < |execs|
    ensures Tally(execs[..|views| + 1], views + [v]) == TallyOne(Tally(execs[..|views|], views), execs[|views|], v)
  {
    var n := |views|;
    assert execs[..n + 1][..n] == execs[..n] && (views + [v])[..n] == views;
  }

  lemma ViewedNext(caches: seq<map<Correlation, Launch>>, entries: seq<Launch>, execs: seq<Exec>, windowNs: uint64,
                   views: seq<View>, v: View)
    requires |views| < |execs| == |caches| && Viewed(caches[|views|], entries, execs[|views|], windowNs, v)
    requires forall k :: 0 <= k < |views| ==> ViewedAt(caches, entries, execs, windowNs, views, k)
    ensures forall k :: 0 <= k <= |views| ==> ViewedAt(caches, entries, execs, windowNs, views + [v], k)
  {
    forall k | 0 <= k <= |views| ensures ViewedAt(caches, entries, execs, windowNs, views + [v], k) {
      if k < |views| {
        assert ViewedAt(caches, entries, execs, windowNs, views, k);
      }
    }
  }

  method JoinExecutions(caches: seq<map<Correlation, Launch>>, entries: seq<Launch>, execs: seq<Exec>, windowNs: uint64)
    returns (views: seq<View>, stats: JoinStats)
    requires |caches| == |execs|
    ensures |views| == |execs|
    ensures forall i :: 0 <= i < |execs| ==> ViewedAt(caches, entries, execs, windowNs, views, i)
    ensures stats == Tally(execs, views)
    ensures stats.exact + stats.heuristic + stats.unmatched == |execs|
  {
    views, stats := [], NO_JOINS;
    var own: Option<map<GroupKey, seq<Launch>>> := None;
    var blind: Option<map<AnyProcessKey, seq<Launch>>> := None;
    for i := 0 to |execs|
      invariant |views| == i
      invariant Lazy(own, entries, KeyOf) && Lazy(blind, entries, AnyKeyOf)
      invariant forall k :: 0 <= k < i ==> ViewedAt(caches, entries, execs, windowNs, views, k)
      invariant stats == Tally(execs[..i], views)
    {
      var v: View;
      own, blind, v := JoinOne(caches[i], entries, execs[i], windowNs, own, blind);
      TallyNext(execs, views, v);
      ViewedNext(caches, entries, execs, windowNs, views, v);
      views := views + [v];
      stats := TallyOne(stats, execs[i], v);
    }
    assert execs[..|execs|] == execs;
  }

  /** The matched launches are exactly those some view was given. */
  lemma {:induction false} MatchedExact(execs: seq<Exec>, views: seq<View>, c: Correlation)
    requires |execs| == |views|
    ensures c in Tally(execs, views).matched <==>
      exists i :: 0 <= i < |views| && views[i].decision.launch.Some? && views[i].decision.launch.value.correlation == c
  {
    if execs != [] {
      var n := |execs| - 1;
      MatchedExact(execs[..n], views[..n], c);
      assert forall i :: 0 <= i < n ==> views[..n][i] == views[i];
    }
  }
}
