/** Projecting joined executions into profile samples (gpu/projection.go): which labels a
    sample carries, and the memo that shares them between executions. */
module Projection {
  import opened Machine
  import opened GpuEvents
  import opened Serialization

  const FRAME_LAUNCH := "[gpu:launch]"
  const FRAME_LAUNCH_UNSAMPLED := "[gpu:launch unsampled]"

  datatype JoinKind = JoinUnset | JoinExact | JoinHeuristic

  /** A joined execution, as far as the projection reads it. */
  datatype View = View(kernelName: string, queueID: string, deviceID: string, correlation: Correlation,
                       launch: Option<LaunchContext>, join: JoinKind, ambiguous: bool, graphRefused: bool,
                       serialized: SerializationState, pcAttrib: string, startNs: uint64, endNs: uint64,
                       pcSamples: seq<PcSample>)
  {
    predicate Sampled() { launch.Some? && launch.value.cpuStack != [] }

    function ProjectionPID(): uint32 { if launch.Some? then launch.value.pid else 0 }

    function LabelPID(): uint32 { if ProjectionPID() != 0 then ProjectionPID() else correlation.pid }

    function Tags(): Labels { if launch.Some? then launch.value.tags else map[] }

    function SamplePeriod(): uint32 { if Sampled() then launch.value.samplePeriod else 0 }
  }

  function Digits(n: nat, radix: nat): string
    requires 2 <= radix <= 16
  {
    var digit := ["0123456789abcdef"[n % radix]];
    if n < radix then digit else Digits(n / radix, radix) + digit
  }

  function Decimal(n: nat): string { Digits(n, 10) }

  function Hexadecimal(n: nat): string { "0x" + Digits(n, 16) }

  // ----- Frames.

  function KernelFrame(name: string): seq<string> {
    if name == "" then [] else ["[gpu:kernel:" + name + "]"]
  }

  /** Leaf first: the kernel, the launch boundary, and the launching call path if sampled. */
  function ProjectionFrames(v: View): seq<string> {
    KernelFrame(v.kernelName)
    + if v.Sampled() then [FRAME_LAUNCH] + v.launch.value.cpuStack else [FRAME_LAUNCH_UNSAMPLED]
  }

  /** What a reader finds: the kernel first where it has a name, then the launch boundary,
      then the whole launching call path where it was sampled and nothing where it was not. */
  lemma FramesExact(v: View)
    ensures var fs := ProjectionFrames(v);
      var n := if v.kernelName == "" then 0 else 1;
      && |fs| > n
      && (v.kernelName != "" ==> fs[0] == "[gpu:kernel:" + v.kernelName + "]")
      && fs[n] == (if v.Sampled() then "[gpu:launch]" else "[gpu:launch unsampled]")
      && fs[n + 1..] == if v.Sampled() then v.launch.value.cpuStack else []
  {
  }

  // ----- Numbers.

  /** What a numeral stands for. */
  ghost function Read(s: string, radix: nat): int {
    if s == [] then 0 else Read(s[..|s| - 1], radix) * radix + DigitOf(s[|s| - 1])
  }

  ghost function DigitOf(c: char): int {
    if '0' <= c <= '9' then c as int - '0' as int else if 'a' <= c <= 'f' then c as int - 'a' as int + 10 else -1
  }

  lemma DigitRead(k: nat)
    requires k < 16
    ensures DigitOf("0123456789abcdef"[k]) == k && ("0123456789abcdef"[k] == '0' <==> k == 0)
  {
    var s := "0123456789abcdef";
    assert s[0] == '0' && s[1] == '1' && s[2] == '2' && s[3] == '3' && s[4] == '4' && s[5] == '5' && s[6] == '6'
      && s[7] == '7' && s[8] == '8' && s[9] == '9' && s[10] == 'a' && s[11] == 'b' && s[12] == 'c' && s[13] == 'd'
      && s[14] == 'e' && s[15] == 'f';
  }

  lemma ReadNext(s: string, c: char, radix: nat)
    ensures Read(s + [c], radix) == Read(s, radix) * radix + DigitOf(c)
  {
    assert (s + [c])[..|s|] == s;
  }

  ghost predicate Numeral(s: string, radix: nat, n: nat) {
    && s != [] && Read(s, radix) == n && (n > 0 ==> s[0] != '0')
    && forall c :: c in s ==> 0 <= DigitOf(c) < radix
  }

  lemma Longer(s: string, c: char, radix: nat, high: nat, low: nat)
    requires Numeral(s, radix, high) && high > 0 && DigitOf(c) == low < radix
    ensures Numeral(s + [c], radix, high * radix + low)
  {
    ReadNext(s, c, radix);
  }

  lemma HighAndLow(n: nat, radix: nat)
    requires 2 <= radix <= n
    ensures 0 < n / radix < n && n == (n / radix) * radix + n % radix
  {
  }

  lemma DigitsUnfold(n: nat, radix: nat)
    requires 2 <= radix <= 16
    ensures var d := "0123456789abcdef"[n % radix];
      Digits(n, radix) == if n < radix then [d] else Digits(n / radix, radix) + [d]
  {
  }

  lemma OneDigit(n: nat, radix: nat, d: char)
    requires n < radix <= 16 && DigitOf(d) == n && (d == '0' <==> n == 0)
    ensures Numeral([d], radix, n)
  {
    ReadNext([], d, radix);
    assert [] + [d] == [d];
  }

  lemma {:induction false} DigitsRead(n: nat, radix: nat)
    requires 2 <= radix <= 16
    ensures Numeral(Digits(n, radix), radix, n)
  {
    DigitsUnfold(n, radix);
    DigitRead(n % radix);
    var d := "0123456789abcdef"[n % radix];
    if n < radix {
      OneDigit(n, radix, d);
    } else {
      HighAndLow(n, radix);
      DigitsRead(n / radix, radix);
      Longer(Digits(n / radix, radix), d, radix, n / radix, n % radix);
    }
  }

  /** Numbers are written so that they read back, in ten digits or sixteen, with no leading
      zero; addresses after a marker. */
  lemma NumbersRead(n: nat)
    ensures Read(Decimal(n), 10) == n && forall c :: c in Decimal(n) ==> '0' <= c <= '9'
    ensures Hexadecimal(n)[..2] == "0x" && Read(Hexadecimal(n)[2..], 16) == n
    ensures n > 0 ==> Decimal(n)[0] != '0' && |Hexadecimal(n)| > 2 && Hexadecimal(n)[2] != '0'
  {
    DigitsRead(n, 10);
    DigitsRead(n, 16);
    assert Hexadecimal(n)[2..] == Digits(n, 16);
    forall c | c in Decimal(n) ensures '0' <= c <= '9' {
      assert 0 <= DigitOf(c) < 10;
    }
  }

  // ----- Labels.

  const PC_RESERVED: set<LabelName> :=
    {GpuStall, GpuPc, GpuPcAttrib, GpuSrcStatus, GpuSrcFile, GpuSrcLine, GpuSrcFunc}

  function JoinText(j: JoinKind): string {
    match j
    case JoinExact => "exact"
    case JoinHeuristic => "heuristic"
    case JoinUnset => "unmatched"
  }

  function SerializedText(s: SerializationState): string {
    match s
    case Serialized => "true"
    case NotSerialized => "false"
    case Unknown => "unknown"
  }

  function Lookup(labels: Labels, name: LabelName): Option<string> {
    if name in labels then Some(labels[name]) else None
  }

  function Set(labels: Labels, when: bool, name: LabelName, value: string): (r: Labels)
    ensures forall x :: Lookup(r, x) == if when && x == name then Some(value) else Lookup(labels, x)
  {
    if when then labels[name := value] else labels
  }

  function Drop(labels: Labels, names: set<LabelName>): (r: Labels)
    ensures forall x :: Lookup(r, x) == if x in names then None else Lookup(labels, x)
  {
    labels - names
  }

  /** Whose work it was and where it ran. */
  function IdentityLabels(v: View): Labels {
    var tags := Drop(v.Tags(), PC_RESERVED);
    var process := Set(tags, v.LabelPID() != 0, GpuPid, Decimal(v.LabelPID()));
    var queue := Set(process, v.queueID != "", GpuQueue, v.queueID);
    Set(queue, v.deviceID != "", GpuDevice, v.deviceID)
  }

  /** How it was joined. */
  function JoinLabels(labels: Labels, v: View, omitCorrelation: bool): Labels {
    var correlated :=
      if omitCorrelation then Drop(labels, {GpuCorrelation})
      else Set(labels, v.correlation.Present(), GpuCorrelation, v.correlation.backend + ":" + v.correlation.value);
    var joined := Set(correlated, true, GpuJoin, JoinText(v.join));
    Set(joined, v.ambiguous, GpuAmbiguous, "true")
  }

  /** What casts doubt on it, and the sampler's denominator. */
  function CaveatLabels(labels: Labels, v: View): Labels {
    var refused := Set(Drop(labels, {GpuGraphRefused}), v.graphRefused, GpuGraphRefused, "true");
    var serialized := Set(refused, true, GpuSerialized, SerializedText(v.serialized));
    Set(serialized, v.SamplePeriod() > 0, GpuSamplePeriod, Decimal(v.SamplePeriod()))
  }

  /** The labels every sample of one execution shares, built in the source's order. */
  function ProjectionLabels(v: View, omitCorrelation: bool): Labels {
    CaveatLabels(JoinLabels(IdentityLabels(v), v, omitCorrelation), v)
  }

  function When(b: bool, value: string): Option<string> { if b then Some(value) else None }

  /** The launch's process, or its correlation's where the launch names none. */
  ghost predicate BelongsTo(v: View, pid: uint32) {
    if v.launch.Some? && v.launch.value.pid != 0 then v.launch.value.pid == pid else v.correlation.pid == pid
  }

  /** What the profiler itself has to say under a name, tags apart. */
  ghost function Derived(v: View, omitCorrelation: bool, name: LabelName): Option<string> {
    match name
    case GpuPid => When(!BelongsTo(v, 0), Decimal(v.LabelPID()))
    case GpuQueue => When(v.queueID != "", v.queueID)
    case GpuDevice => When(v.deviceID != "", v.deviceID)
    case GpuCorrelation =>
      When(!omitCorrelation && v.correlation.Present(), v.correlation.backend + ":" + v.correlation.value)
    case GpuJoin =>
      Some(if v.join == JoinExact then "exact" else if v.join == JoinHeuristic then "heuristic" else "unmatched")
    case GpuAmbiguous => When(v.ambiguous, "true")
    case GpuGraphRefused => When(v.graphRefused, "true")
    case GpuSerialized =>
      Some(if v.serialized == Serialized then "true" else if v.serialized == NotSerialized then "false" else "unknown")
    case GpuSamplePeriod =>
      var sampled := v.launch.Some? && v.launch.value.cpuStack != [] && v.launch.value.samplePeriod > 0;
      if sampled then Some(Decimal(v.launch.value.samplePeriod)) else None
    case _ => None
  }

  /** Names a tag loses even where the profiler has nothing to say. */
  ghost predicate Cleared(omitCorrelation: bool, name: LabelName) {
    || name in {GpuStall, GpuPc, GpuPcAttrib, GpuSrcStatus, GpuSrcFile, GpuSrcLine, GpuSrcFunc, GpuGraphRefused}
    || (omitCorrelation && name == GpuCorrelation)
  }

  lemma IdentityExact(v: View, name: LabelName)
    ensures Lookup(IdentityLabels(v), name)
      == if name in {GpuPid, GpuQueue, GpuDevice} && Derived(v, true, name).Some? then Derived(v, true, name)
         else if name in PC_RESERVED then None
         else Lookup(v.Tags(), name)
  {
  }

  lemma JoinLabelsExact(labels: Labels, v: View, omitCorrelation: bool, name: LabelName)
    ensures Lookup(JoinLabels(labels, v, omitCorrelation), name)
      == if name in {GpuCorrelation, GpuJoin, GpuAmbiguous} && Derived(v, omitCorrelation, name).Some?
         then Derived(v, omitCorrelation, name)
         else if omitCorrelation && name == GpuCorrelation then None
         else Lookup(labels, name)
  {
  }

  lemma CaveatExact(labels: Labels, v: View, omitCorrelation: bool, name: LabelName)
    ensures Lookup(CaveatLabels(labels, v), name)
      == if name in {GpuGraphRefused, GpuSerialized, GpuSamplePeriod} && Derived(v, omitCorrelation, name).Some?
         then Derived(v, omitCorrelation, name)
         else if name == GpuGraphRefused then None
         else Lookup(labels, name)
  {
  }

  /** What is derived wins, a cleared name is absent without it, and only then does a tag show. */
  ghost function Expected(v: View, omitCorrelation: bool, name: LabelName): Option<string> {
    match Derived(v, omitCorrelation, name)
    case Some(value) => Some(value)
    case None =>
      if Cleared(omitCorrelation, name) || v.launch == None then None else Lookup(v.launch.value.tags, name)
  }

  ghost predicate Follows(labels: Labels, v: View, omitCorrelation: bool) {
    forall name :: Lookup(labels, name) == Expected(v, omitCorrelation, name)
  }

  /** The process named is the one the execution belongs to. */
  lemma NamesOwner(v: View)
    ensures BelongsTo(v, v.LabelPID())
  {
  }

  /** The three parts together, each over the one before. */
  lemma Together(v: View, omitCorrelation: bool, name: LabelName, a: Option<string>, b: Option<string>,
                 c: Option<string>)
    requires a == (if name in {GpuPid, GpuQueue, GpuDevice} && Derived(v, true, name).Some? then Derived(v, true, name)
                   else if name in PC_RESERVED then None
                   else Lookup(v.Tags(), name))
    requires b == (if name in {GpuCorrelation, GpuJoin, GpuAmbiguous} && Derived(v, omitCorrelation, name).Some?
                   then Derived(v, omitCorrelation, name)
                   else if omitCorrelation && name == GpuCorrelation then None
                   else a)
    requires c == (if name in {GpuGraphRefused, GpuSerialized, GpuSamplePeriod}
                      && Derived(v, omitCorrelation, name).Some?
                   then Derived(v, omitCorrelation, name)
                   else if name == GpuGraphRefused then None
                   else b)
    ensures c == Expected(v, omitCorrelation, name)
  {
  }

  lemma NameExact(v: View, omitCorrelation: bool, name: LabelName)
    ensures Lookup(ProjectionLabels(v, omitCorrelation), name) == Expected(v, omitCorrelation, name)
  {
    var identity := IdentityLabels(v);
    var joined := JoinLabels(identity, v, omitCorrelation);
    IdentityExact(v, name);
    JoinLabelsExact(identity, v, omitCorrelation, name);
    CaveatExact(joined, v, omitCorrelation, name);
    Together(v, omitCorrelation, name, Lookup(identity, name), Lookup(joined, name),
             Lookup(CaveatLabels(joined, v), name));
  }

  /** The labels are what the rule says, name by name. */
  lemma LabelsExact(v: View, omitCorrelation: bool)
    ensures Follows(ProjectionLabels(v, omitCorrelation), v, omitCorrelation)
  {
    var labels := ProjectionLabels(v, omitCorrelation);
    forall name ensures Lookup(labels, name) == Expected(v, omitCorrelation, name) {
      NameExact(v, omitCorrelation, name);
    }
  }

  /** The profiler derives labels under this name, has none this time, and does not clear it. */
  predicate Forgeable(v: View, omitCorrelation: bool, name: LabelName) {
    match name
    case GpuPid => v.LabelPID() == 0
    case GpuQueue => v.queueID == ""
    case GpuDevice => v.deviceID == ""
    case GpuCorrelation => !omitCorrelation && !v.correlation.Present()
    case GpuAmbiguous => !v.ambiguous
    case GpuSamplePeriod => v.SamplePeriod() == 0
    case _ => false
  }

  /** Exactly when a producer's tag passes for a label of the profiler's. */
  lemma TagSurvivesIff(v: View, omitCorrelation: bool, name: LabelName)
    requires !name.Other? && v.launch.Some? && name in v.launch.value.tags
    ensures Forgeable(v, omitCorrelation, name) <==>
      Derived(v, omitCorrelation, name) == None && name in ProjectionLabels(v, omitCorrelation)
    ensures Forgeable(v, omitCorrelation, name) ==>
      ProjectionLabels(v, omitCorrelation)[name] == v.launch.value.tags[name]
  {
    LabelsExact(v, omitCorrelation);
    SurvivesIff(ProjectionLabels(v, omitCorrelation), v, omitCorrelation, name);
  }

  lemma SurvivesIff(labels: Labels, v: View, omitCorrelation: bool, name: LabelName)
    requires Follows(labels, v, omitCorrelation) && !name.Other? && v.launch.Some? && name in v.launch.value.tags
    ensures Forgeable(v, omitCorrelation, name) <==> Derived(v, omitCorrelation, name) == None && name in labels
    ensures Forgeable(v, omitCorrelation, name) ==> labels[name] == v.launch.value.tags[name]
  {
    assert Lookup(labels, name) == Expected(v, omitCorrelation, name);
  }

  // ----- The memo's keys.

  datatype LabelKey = LabelKey(pid: uint32, queue: string, device: string, join: JoinKind, ambiguous: bool,
                               graphRefused: bool, serialized: SerializationState, samplePeriod: uint32)

  function KeyOf(v: View): LabelKey {
    LabelKey(v.LabelPID(), v.queueID, v.deviceID, v.join, v.ambiguous, v.graphRefused, v.serialized, v.SamplePeriod())
  }

  /** A view with nothing in it but its key. */
  function Bare(k: LabelKey): View {
    View("", k.queue, k.device, Correlation("", k.pid, ""),
         if k.samplePeriod > 0 then Some(LaunchContext(0, ["main"], k.samplePeriod, map[])) else None,
         k.join, k.ambiguous, k.graphRefused, k.serialized, "", 0, 0, [])
  }

  lemma SameFacts(v: View, name: LabelName)
    requires v.Tags() == map[]
    ensures Expected(v, true, name) == Expected(Bare(KeyOf(v)), true, name)
  {
  }

  lemma SameRule(a: Labels, b: Labels, v: View)
    requires v.Tags() == map[] && Follows(a, v, true) && Follows(b, Bare(KeyOf(v)), true)
    ensures a == b
  {
    forall name ensures Lookup(a, name) == Lookup(b, name) {
      SameFacts(v, name);
    }
    SameLookups(a, b);
  }

  /** The key determines the labels whenever the memo is consulted. */
  lemma KeyDetermines(v: View)
    requires v.Tags() == map[]
    ensures ProjectionLabels(v, true) == ProjectionLabels(Bare(KeyOf(v)), true)
  {
    LabelsExact(v, true);
    LabelsExact(Bare(KeyOf(v)), true);
    SameRule(ProjectionLabels(v, true), ProjectionLabels(Bare(KeyOf(v)), true), v);
  }

  lemma SameLookups(a: Labels, b: Labels)
    requires forall name :: Lookup(a, name) == Lookup(b, name)
    ensures a == b
  {
    forall name ensures name in a <==> name in b {
      assert Lookup(a, name) == Lookup(b, name);
    }
    forall name | name in a ensures a[name] == b[name] {
      assert Lookup(a, name) == Lookup(b, name);
    }
  }

  /** How the labels of one execution are built on their own. */
  function Builder(omitCorrelation: bool): View -> Labels {
    (v: View) => ProjectionLabels(v, omitCorrelation)
  }

  /** A way of building labels that reads nothing outside the key. */
  ghost predicate Keyed(build: View -> Labels) {
    forall v: View :: v.Tags() == map[] ==> build(v) == build(Bare(KeyOf(v)))
  }

  /** The key determines the labels, so a memo over it is transparent. */
  lemma BuilderKeyed()
    ensures Keyed(Builder(true))
  {
    forall v: View | v.Tags() == map[] ensures Builder(true)(v) == Builder(true)(Bare(KeyOf(v))) {
      KeyDetermines(v);
    }
  }
}
