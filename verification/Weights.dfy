/** Splitting an execution's duration over its PC samples (gpu/projection.go): exact
    128-bit proportional shares, and what they conserve over a snapshot. */
module Weights {
  import opened Machine
  import opened GpuEvents

  // ----- 128-bit arithmetic on 64-bit words.

  function Mul64(a: uint64, b: uint64): (r: (uint64, uint64))
    ensures r.0 * TWO64 + r.1 == a * b
  {
    ProductFits(a, b);
    (a * b / TWO64, a * b % TWO64)
  }

  lemma ProductFits(a: uint64, b: uint64)
    ensures 0 <= a * b && a * b / TWO64 < TWO64
  {
    MulMono(a, MAX_UINT64, b);
    assert a * b <= MAX_UINT64 * b;
  }

  lemma MulMono(a: nat, b: nat, c: nat)
    requires a <= b
    ensures a * c <= b * c
  {
    assert (b - a) * c >= 0;
    assert b * c - a * c == (b - a) * c;
  }

  /** Go's bits.Div64 panics on a zero divisor and on a quotient that does not fit. */
  function Div64(hi: uint64, lo: uint64, y: uint64): (r: Option<uint64>)
    ensures r.Some? <==> hi < y
    ensures r.Some? ==> r.value == (hi * TWO64 + lo) / y
  {
    if y == 0 || y <= hi then None
    else
      QuotientFits(hi, lo, y);
      Some((hi * TWO64 + lo) / y)
  }

  lemma DivBelow(x: nat, y: nat, bound: nat)
    requires y > 0 && x < y * bound
    ensures 0 <= x / y < bound
  {
    var q := x / y;
    assert x == y * q + x % y;
    if q >= bound {
      MulMono(bound, q, y);
    }
  }

  lemma QuotientFits(hi: uint64, lo: uint64, y: uint64)
    requires hi < y
    ensures 0 <= (hi * TWO64 + lo) / y < TWO64
  {
    var x := hi * TWO64 + lo;
    assert x < y * TWO64;
    DivBelow(x, y, TWO64);
  }

  // ----- The split.

  /** A sample that counted nothing still counts once. */
  function Clamp(c: uint64): (r: uint64)
    ensures r == Max(c, 1)
  {
    if c < 1 then 1 else c
  }

  /** The true total of the clamped counts. */
  function Total(cs: seq<uint64>): nat {
    if cs == [] then 0 else Total(cs[..|cs| - 1]) + Clamp(cs[|cs| - 1])
  }

  function Sum(ws: seq<uint64>): nat {
    if ws == [] then 0 else Sum(ws[..|ws| - 1]) + ws[|ws| - 1]
  }

  /** The total as a 64-bit counter accumulates it. */
  function Total64(cs: seq<uint64>): uint64 {
    if cs == [] then 0 else Add64(Total64(cs[..|cs| - 1]), Clamp(cs[|cs| - 1]))
  }

  function Sum64(ws: seq<uint64>): uint64 {
    if ws == [] then 0 else Add64(Sum64(ws[..|ws| - 1]), ws[|ws| - 1])
  }

  lemma {:induction false} TotalWraps(cs: seq<uint64>)
    ensures Total64(cs) == Total(cs) % TWO64
  {
    if cs != [] {
      TotalWraps(cs[..|cs| - 1]);
      AddWraps(Total(cs[..|cs| - 1]), Clamp(cs[|cs| - 1]));
    }
  }

  lemma {:induction false} SumWraps(ws: seq<uint64>)
    ensures Sum64(ws) == Sum(ws) % TWO64
  {
    if ws != [] {
      SumWraps(ws[..|ws| - 1]);
      AddWraps(Sum(ws[..|ws| - 1]), ws[|ws| - 1]);
    }
  }

  /** One share, by the 64-bit divisor at hand; None is the panic. */
  function Share(weight: uint64, c: uint64, divisor: uint64): Option<uint64> {
    var (hi, lo) := Mul64(weight, Clamp(c));
    Div64(hi, lo, divisor)
  }

  function ShareBy(weight: uint64, divisor: uint64): uint64 -> Option<uint64> {
    (c: uint64) => Share(weight, c, divisor)
  }

  /** Every count's share, if none of them panics. */
  function Shares(cs: seq<uint64>, share: uint64 -> Option<uint64>): (r: Option<seq<uint64>>)
    ensures r.Some? ==> |r.value| == |cs|
  {
    if cs == [] then Some([])
    else
      match (Shares(cs[..|cs| - 1], share), share(cs[|cs| - 1]))
      case (Some(ws), Some(w)) => Some(ws + [w])
      case _ => None
  }

  /** What the shares left over goes to the last. */
  function Residue(weight: uint64, ws: seq<uint64>, distributed: uint64): (r: seq<uint64>)
    ensures |r| == |ws|
  {
    if ws != [] && distributed < weight then ws[|ws| - 1 := Add64(ws[|ws| - 1], weight - distributed)] else ws
  }

  function Split(weight: uint64, cs: seq<uint64>): (r: Option<seq<uint64>>)
    ensures r.Some? ==> |r.value| == |cs|
  {
    match Shares(cs, ShareBy(weight, Total64(cs)))
    case None => None
    case Some(ws) => Some(Residue(weight, ws, Sum64(ws)))
  }

  // ----- Exact shares.

  function Floor(weight: uint64, c: uint64, total: nat): nat
    requires total > 0
  {
    weight * Clamp(c) / total
  }

  lemma DivBounds(x: nat, y: nat)
    requires y > 0
    ensures 0 <= x / y && x / y * y <= x < (x / y + 1) * y
  {
    var q := x / y;
    assert x == y * q + x % y;
    assert (q + 1) * y == q * y + y;
  }

  lemma ShareExact(weight: uint64, c: uint64, total: uint64)
    requires Clamp(c) <= total
    ensures Share(weight, c, total) == Some(Floor(weight, c, total))
  {
    var k := Clamp(c);
    var hi, lo := Mul64(weight, k).0, Mul64(weight, k).1;
    MulMono(weight, MAX_UINT64, k);
    assert hi * TWO64 + lo <= MAX_UINT64 * k;
    assert hi < total;
  }

  lemma {:induction false} SharesFit(weight: uint64, cs: seq<uint64>, total: uint64)
    requires Total(cs) <= total
    ensures var r := Shares(cs, ShareBy(weight, total));
      r.Some? && forall i :: 0 <= i < |cs| ==> total > 0 && r.value[i] == Floor(weight, cs[i], total)
  {
    if cs != [] {
      var n := |cs| - 1;
      SharesFit(weight, cs[..n], total);
      ShareExact(weight, cs[n], total);
      forall i | 0 <= i < |cs| ensures Shares(cs, ShareBy(weight, total)).value[i] == Floor(weight, cs[i], total) {
        if i < n {
          assert cs[..n][i] == cs[i];
        }
      }
    }
  }

  /** Rounding down loses less than one unit a share. */
  lemma {:induction false} FloorsBound(weight: uint64, cs: seq<uint64>, ws: seq<uint64>, total: nat)
    requires total > 0 && |ws| == |cs|
    requires forall i :: 0 <= i < |cs| ==> ws[i] == Floor(weight, cs[i], total)
    ensures Sum(ws) * total <= weight * Total(cs)
    ensures cs != [] ==> weight * Total(cs) < (Sum(ws) + |ws|) * total
  {
    if cs != [] {
      var n := |cs| - 1;
      FloorsBound(weight, cs[..n], ws[..n], total);
      DivBounds(weight * Clamp(cs[n]), total);
      FloorsStep(weight, Total(cs[..n]), Clamp(cs[n]), Sum(ws[..n]), ws[n], n, total);
    }
  }

  lemma FloorsStep(weight: nat, had: nat, c: nat, sum: nat, w: nat, n: nat, total: nat)
    requires sum * total <= weight * had && weight * had <= (sum + n) * total
    requires w * total <= weight * c < (w + 1) * total
    ensures (sum + w) * total <= weight * (had + c) < (sum + w + (n + 1)) * total
  {
    assert weight * (had + c) == weight * had + weight * c;
    assert (sum + w) * total == sum * total + w * total;
    assert (sum + w + (n + 1)) * total == (sum + n) * total + (w + 1) * total;
  }

  lemma CancelBounds(sum: nat, weight: nat, n: nat, total: nat)
    requires total > 0 && sum * total <= weight * total < (sum + n) * total
    ensures sum <= weight < sum + n
  {
    if weight < sum {
      MulMono(weight + 1, sum, total);
    }
    if weight >= sum + n {
      MulMono(sum + n, weight, total);
    }
  }

  lemma SumLast(ws: seq<uint64>, x: uint64)
    requires ws != []
    ensures Sum(ws[|ws| - 1 := x]) == Sum(ws) - ws[|ws| - 1] + x
    ensures ws[|ws| - 1] <= Sum(ws)
  {
    var r := ws[|ws| - 1 := x];
    assert r[..|r| - 1] == ws[..|ws| - 1];
  }

  /** The parts make the whole: every share but the last is the exact floor of its
      proportion, the last carries a residue smaller than the number of samples. */
  ghost predicate ExactSplit(weight: uint64, cs: seq<uint64>)
    requires cs != []
  {
    var r := Split(weight, cs);
    var n := |cs| - 1;
    && Total(cs) > 0
    && r.Some?
    && Sum(r.value) == weight
    && (forall i :: 0 <= i < n ==> r.value[i] == Floor(weight, cs[i], Total(cs)))
    && Floor(weight, cs[n], Total(cs)) <= r.value[n] < Floor(weight, cs[n], Total(cs)) + |cs|
  }

  lemma TotalPositive(cs: seq<uint64>)
    requires cs != []
    ensures Total(cs) >= Clamp(cs[|cs| - 1]) >= 1
  {
  }

  lemma ResidueExact(weight: uint64, ws: seq<uint64>, distributed: uint64)
    requires ws != [] && Sum(ws) == distributed <= weight < distributed + |ws|
    ensures var r := Residue(weight, ws, distributed);
      && Sum(r) == weight
      && r[..|ws| - 1] == ws[..|ws| - 1]
      && ws[|ws| - 1] <= r[|ws| - 1] < ws[|ws| - 1] + |ws|
  {
    if distributed < weight {
      var last := ws[|ws| - 1];
      SumLast(ws, last);
      SumLast(ws, last + (weight - distributed));
    }
  }

  lemma FloorsExact(weight: uint64, cs: seq<uint64>, ws: seq<uint64>, total: nat)
    requires cs != [] && total == Total(cs) > 0 && |ws| == |cs|
    requires forall i :: 0 <= i < |cs| ==> ws[i] == Floor(weight, cs[i], total)
    ensures Sum(ws) <= weight < Sum(ws) + |ws|
  {
    FloorsBound(weight, cs, ws, total);
    CancelBounds(Sum(ws), weight, |cs|, total);
  }

  lemma SplitUnwrapped(weight: uint64, cs: seq<uint64>, ws: seq<uint64>)
    requires Total(cs) < TWO64 && Shares(cs, ShareBy(weight, Total(cs))) == Some(ws) && Sum(ws) < TWO64
    ensures Split(weight, cs) == Some(Residue(weight, ws, Sum(ws)))
  {
    TotalFits(cs);
    SumFits(ws);
  }

  lemma TotalFits(cs: seq<uint64>)
    requires Total(cs) < TWO64
    ensures Total64(cs) == Total(cs)
  {
    TotalWraps(cs);
  }

  lemma SumFits(ws: seq<uint64>)
    requires Sum(ws) < TWO64
    ensures Sum64(ws) == Sum(ws)
  {
    SumWraps(ws);
  }

  lemma SplitExact(weight: uint64, cs: seq<uint64>)
    requires cs != [] && Total(cs) < TWO64
    ensures ExactSplit(weight, cs)
  {
    SharesFit(weight, cs, Total(cs));
    var ws := Shares(cs, ShareBy(weight, Total(cs))).value;
    TotalPositive(cs);
    FloorsExact(weight, cs, ws, Total(cs));
    SplitUnwrapped(weight, cs, ws);
    ResidueExact(weight, ws, Sum(ws));
    PrefixKept(Residue(weight, ws, Sum(ws)), ws);
  }

  lemma PrefixKept(r: seq<uint64>, ws: seq<uint64>)
    requires ws != [] && |r| == |ws| && r[..|ws| - 1] == ws[..|ws| - 1]
    ensures forall i :: 0 <= i < |ws| - 1 ==> r[i] == ws[i]
  {
    forall i | 0 <= i < |ws| - 1 ensures r[i] == ws[i] {
      assert r[i] == r[..|ws| - 1][i];
    }
  }

  // ----- Where it stops being exact.

  lemma {:induction false} OneShareSpoils(cs: seq<uint64>, share: uint64 -> Option<uint64>, k: nat)
    requires k <= |cs| && Shares(cs[..k], share) == None
    ensures Shares(cs, share) == None
  {
    if k < |cs| {
      assert cs[..|cs| - 1][..k] == cs[..k];
      OneShareSpoils(cs[..|cs| - 1], share, k);
    } else {
      assert cs[..k] == cs;
    }
  }

  lemma {:induction false} ShareAt(weight: uint64, cs: seq<uint64>, divisor: uint64, i: nat)
    requires i < |cs| && Shares(cs, ShareBy(weight, divisor)).Some?
    ensures Share(weight, cs[i], divisor) == Some(Shares(cs, ShareBy(weight, divisor)).value[i])
  {
    var n := |cs| - 1;
    if i < n {
      ShareAt(weight, cs[..n], divisor, i);
    }
  }

  /** By a wrapped total the first share of the largest weight is too large, if it does
      not panic: at least the count itself, where the true share is below it. */
  lemma WrappedShare(c: uint64, wrapped: uint64, total: nat)
    requires wrapped + TWO64 <= total
    ensures Share(MAX_UINT64, c, wrapped) != Some(Floor(MAX_UINT64, c, total))
  {
    var k := Clamp(c);
    var r := Share(MAX_UINT64, c, wrapped);
    DivBelow(MAX_UINT64 * k, total, k) by {
      MulMono(TWO64, total, k);
    }
    if r.Some? {
      MulMono(wrapped, MAX_UINT64, k);
      DivAtLeast(MAX_UINT64 * k, wrapped, k);
    }
  }

  lemma DivAtLeast(x: nat, y: nat, k: nat)
    requires y > 0 && x >= y * k
    ensures x / y >= k
  {
    DivBounds(x, y);
    if x / y < k {
      MulMono(x / y + 1, k, y);
    }
  }

  lemma TotalOfOne(cs: seq<uint64>)
    requires |cs| == 1
    ensures Total(cs) < TWO64
  {
    assert cs[..0] == [];
  }

  /** The split is exact for every duration if and only if the clamped counts sum below
      2^64. Past that the total wraps, and the largest duration already shows it. */
  lemma SplitExactIff(cs: seq<uint64>)
    requires cs != []
    ensures Total(cs) < TWO64 <==> forall weight: uint64 :: ExactSplit(weight, cs)
  {
    if Total(cs) < TWO64 {
      forall weight: uint64 ensures ExactSplit(weight, cs) {
        SplitExact(weight, cs);
      }
    } else {
      SplitInexact(cs);
    }
  }

  lemma SplitInexact(cs: seq<uint64>)
    requires cs != [] && Total(cs) >= TWO64
    ensures !ExactSplit(MAX_UINT64, cs)
  {
    TotalWraps(cs);
    var wrapped := Total64(cs);
    assert wrapped + TWO64 <= Total(cs);
    if |cs| == 1 {
      TotalOfOne(cs);
    }
    WrappedShare(cs[0], wrapped, Total(cs));
    var shares := Shares(cs, ShareBy(MAX_UINT64, wrapped));
    if shares.Some? {
      ShareAt(MAX_UINT64, cs, wrapped, 0);
      assert Residue(MAX_UINT64, shares.value, Sum64(shares.value))[0] == shares.value[0];
    }
  }

  // ----- Where it panics.

  /** Dividing the largest weight's product panics exactly on a divisor below the count. */
  lemma LargestPanics(c: uint64, divisor: uint64)
    ensures Share(MAX_UINT64, c, divisor).None? <==> divisor < Clamp(c)
  {
    var k := Clamp(c);
    var hi := Mul64(MAX_UINT64, k).0;
    assert MAX_UINT64 * k == (k - 1) * TWO64 + (TWO64 - k);
    assert hi == k - 1;
  }

  lemma {:induction false} SharesNoneIff(cs: seq<uint64>, share: uint64 -> Option<uint64>)
    ensures Shares(cs, share).None? <==> exists i :: 0 <= i < |cs| && share(cs[i]).None?
  {
    if cs != [] {
      var n := |cs| - 1;
      SharesNoneIff(cs[..n], share);
      if Shares(cs[..n], share).None? {
        var i :| 0 <= i < n && share(cs[..n][i]).None?;
        assert share(cs[i]).None?;
      }
      if i :| 0 <= i < n && share(cs[i]).None? {
        assert share(cs[..n][i]).None?;
      }
    }
  }

  /** The division panics for some duration if and only if some count exceeds the total,
      which takes a total that wrapped. */
  lemma PanicIff(cs: seq<uint64>)
    ensures (exists weight: uint64 :: Split(weight, cs).None?)
      <==> exists i :: 0 <= i < |cs| && Clamp(cs[i]) > Total64(cs)
  {
    var total := Total64(cs);
    forall weight: uint64 | Split(weight, cs).None?
      ensures exists i :: 0 <= i < |cs| && Clamp(cs[i]) > total
    {
      SharesNoneIff(cs, ShareBy(weight, total));
      var i :| 0 <= i < |cs| && Share(weight, cs[i], total).None?;
      if Clamp(cs[i]) <= total {
        ShareExact(weight, cs[i], total);
      }
    }
    if i :| 0 <= i < |cs| && Clamp(cs[i]) > total {
      SharesNoneIff(cs, ShareBy(MAX_UINT64, total));
      LargestPanics(cs[i], total);
      assert ShareBy(MAX_UINT64, total)(cs[i]).None?;
      assert Split(MAX_UINT64, cs).None?;
    }
  }

  lemma {:induction false} EachWithinTotal(cs: seq<uint64>, i: nat)
    requires i < |cs|
    ensures Clamp(cs[i]) <= Total(cs)
  {
    var n := |cs| - 1;
    if i < n {
      EachWithinTotal(cs[..n], i);
    }
  }

  /** So no duration panics while the counts sum below 2^64. */
  lemma NoPanic(cs: seq<uint64>, weight: uint64)
    requires Total(cs) < TWO64
    ensures Split(weight, cs).Some?
  {
    TotalFits(cs);
    PanicIff(cs);
    if Split(weight, cs).None? {
      var i :| 0 <= i < |cs| && Clamp(cs[i]) > Total64(cs);
      EachWithinTotal(cs, i);
    }
  }

  const HALF: uint64 := 0x8000_0000_0000_0000

  lemma TotalNext(cs: seq<uint64>, c: uint64)
    ensures Total(cs + [c]) == Total(cs) + Clamp(c)
    ensures Total64(cs + [c]) == Add64(Total64(cs), Clamp(c))
  {
    assert (cs + [c])[..|cs|] == cs;
  }

  lemma TotalOfHalves(two: seq<uint64>)
    requires two == [HALF, HALF]
    ensures Total(two) == 2 * HALF && Total64(two) == 0
    ensures Total(two + [HALF]) == 3 * HALF && Total64(two + [HALF]) == HALF
  {
    TotalNext([], HALF);
    TotalNext([HALF], HALF);
    TotalNext(two, HALF);
    assert [] + [HALF] == [HALF] && [HALF] + [HALF] == two;
  }

  /** Two counts of 2^63 wrap the total to zero, and the division by it panics. */
  lemma TwoHalvesPanic(cs: seq<uint64>)
    requires cs == [HALF, HALF]
    ensures Split(MAX_UINT64, cs).None?
  {
    TotalOfHalves(cs);
    LargestPanics(cs[0], 0);
    SharesNoneIff(cs, ShareBy(MAX_UINT64, 0));
    assert ShareBy(MAX_UINT64, 0)(cs[0]).None?;
  }

  /** Three wrap it to 2^63: no duration panics, though the counts sum past 2^64. */
  lemma ThreeHalvesDoNot(cs: seq<uint64>, weight: uint64)
    requires cs == [HALF, HALF, HALF]
    ensures Total(cs) >= TWO64 && Split(weight, cs).Some?
  {
    TotalOfHalves([HALF, HALF]);
    assert [HALF, HALF] + [HALF] == cs;
    PanicIff(cs);
  }

  // ----- The imperative split.

  method SumCounts(cs: seq<uint64>) returns (total: uint64)
    ensures total == Total64(cs)
  {
    total := 0;
    for i := 0 to |cs|
      invariant total == Total64(cs[..i])
    {
      assert cs[..i + 1][..i] == cs[..i];
      total := Add64(total, Clamp(cs[i]));
    }
    assert cs[..|cs|] == cs;
  }

  lemma SharesNext(cs: seq<uint64>, share: uint64 -> Option<uint64>, i: nat, ws: seq<uint64>, w: uint64)
    requires i < |cs| && Shares(cs[..i], share) == Some(ws) && share(cs[i]) == Some(w)
    ensures Shares(cs[..i + 1], share) == Some(ws + [w])
  {
    assert cs[..i + 1][..i] == cs[..i];
  }

  lemma SharesFail(cs: seq<uint64>, share: uint64 -> Option<uint64>, i: nat)
    requires i < |cs| && share(cs[i]) == None
    ensures Shares(cs, share) == None
  {
    assert cs[..i + 1][..i] == cs[..i];
    OneShareSpoils(cs, share, i + 1);
  }

  method ShareOut(cs: seq<uint64>, share: uint64 -> Option<uint64>)
    returns (r: Option<seq<uint64>>, distributed: uint64)
    ensures r == Shares(cs, share)
    ensures r.Some? ==> distributed == Sum64(r.value)
  {
    var ws: seq<uint64> := [];
    distributed := 0;
    for i := 0 to |cs|
      invariant Shares(cs[..i], share) == Some(ws) && distributed == Sum64(ws)
    {
      var w := share(cs[i]);
      if w == None {
        SharesFail(cs, share, i);
        return None, 0;
      }
      SharesNext(cs, share, i, ws, w.value);
      assert (ws + [w.value])[..i] == ws;
      ws := ws + [w.value];
      distributed := Add64(distributed, w.value);
    }
    assert cs[..|cs|] == cs;
    r := Some(ws);
  }

  method Distribute(weight: uint64, cs: seq<uint64>) returns (r: Option<seq<uint64>>)
    ensures r == Split(weight, cs)
  {
    var total := SumCounts(cs);
    var shares, distributed := ShareOut(cs, ShareBy(weight, total));
    if shares == None {
      return None;
    }
    var ws := shares.value;
    if |ws| > 0 && distributed < weight {
      ws := ws[|ws| - 1 := Add64(ws[|ws| - 1], weight - distributed)];
    }
    r := Some(ws);
  }

  // ----- A whole snapshot.

  /** An execution counts for as long as it ran, and for one nanosecond at least. */
  function ExecutionWeight(startNs: uint64, endNs: uint64): (r: uint64)
    ensures r == Max(endNs - startNs, 1)
  {
    if endNs <= startNs then 1 else endNs - startNs
  }

  /** One execution as the projection weighs it: its interval and its samples' counts. */
  datatype Timed = Timed(startNs: uint64, endNs: uint64, counts: seq<uint64>)
  {
    function Weight(): uint64 { ExecutionWeight(startNs, endNs) }
  }

  /** The values of the samples one execution is projected to. */
  function Values(t: Timed): Option<seq<uint64>> {
    if t.counts == [] then Some([t.Weight()]) else Split(t.Weight(), t.counts)
  }

  function Projected(ts: seq<Timed>): Option<seq<uint64>> {
    if ts == [] then Some([])
    else
      match (Projected(ts[..|ts| - 1]), Values(ts[|ts| - 1]))
      case (Some(vs), Some(more)) => Some(vs + more)
      case _ => None
  }

  function Duration(ts: seq<Timed>): nat {
    if ts == [] then 0 else Duration(ts[..|ts| - 1]) + ts[|ts| - 1].Weight()
  }

  lemma {:induction false} SumAppend(a: seq<uint64>, b: seq<uint64>)
    ensures Sum(a + b) == Sum(a) + Sum(b)
  {
    if b == [] {
      assert a + b == a;
    } else {
      assert (a + b)[..|a + b| - 1] == a + b[..|b| - 1];
      SumAppend(a, b[..|b| - 1]);
    }
  }

  /** Over every snapshot, the projected values sum to the executions' durations. */
  lemma {:induction false} WeightConserved(ts: seq<Timed>)
    requires forall t :: t in ts ==> Total(t.counts) < TWO64
    ensures Projected(ts).Some? && Sum(Projected(ts).value) == Duration(ts)
  {
    if ts != [] {
      var n := |ts| - 1;
      WeightConserved(ts[..n]);
      var t := ts[n];
      if t.counts == [] {
        assert [t.Weight()][..0] == [];
      } else {
        SplitExact(t.Weight(), t.counts);
      }
      SumAppend(Projected(ts[..n]).value, Values(t).value);
    }
  }
}
