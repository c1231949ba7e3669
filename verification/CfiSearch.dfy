/** The bounded binary search over a binary's unwind rows (bpf/unwind_common.h). */
module CfiSearch {
  import opened Machine

  const MAX_ITERS: int := 24

  datatype Row = Row(pcStart: uint64, pcEndDelta: uint32)
  {
    /** As the search tests it: a range that wraps past the address space holds nothing. */
    predicate Covers(pc: uint64) { pcStart <= pc < Add64(pcStart, pcEndDelta) }
  }

  /** What the compiler installs: rows sorted by start, disjoint. */
  ghost predicate Table(rows: seq<Row>) {
    forall i, j :: 0 <= i < j < |rows| ==> rows[i].pcStart + rows[i].pcEndDelta <= rows[j].pcStart
  }

  function Pow2(n: nat): (r: nat)
    ensures r >= 1
  {
    if n == 0 then 1 else 2 * Pow2(n - 1)
  }

  /** The lookup, with its iteration bound as a parameter; None is its NULL. A row it
      returns covers the pc; SearchFinds says when it returns one. */
  method Lookup(rows: seq<Row>, relPc: uint64, iters: nat) returns (r: Option<nat>)
    ensures r == Search(rows, relPc, 0, |rows|, iters)
    ensures r.Some? ==> r.value < |rows| && rows[r.value].Covers(relPc)
  {
    if |rows| == 0 {
      return None;
    }
    var lo, hi := 0, |rows|;
    for i := 0 to iters
      invariant 0 <= lo <= hi <= |rows|
      invariant Search(rows, relPc, 0, |rows|, iters) == Search(rows, relPc, lo, hi, iters - i)
    {
      if lo >= hi {
        break;
      }
      var mid := lo + (hi - lo) / 2;
      var e := rows[mid];
      if relPc < e.pcStart {
        hi := mid;
      } else if relPc >= Add64(e.pcStart, e.pcEndDelta) {
        lo := mid + 1;
      } else {
        return Some(mid);
      }
    }
    return None;
  }

  /** The search as a function of its window. */
  function Search(rows: seq<Row>, relPc: uint64, lo: nat, hi: nat, left: nat): Option<nat>
    requires lo <= hi <= |rows|
    decreases left
  {
    if left == 0 || lo >= hi then None
    else
      var mid := lo + (hi - lo) / 2;
      if relPc < rows[mid].pcStart then Search(rows, relPc, lo, mid, left - 1)
      else if relPc >= Add64(rows[mid].pcStart, rows[mid].pcEndDelta) then Search(rows, relPc, mid + 1, hi, left - 1)
      else Some(mid)
  }

  /** How many halvings it takes to land on index k: a matter of indices alone. */
  function Steps(k: nat, lo: nat, hi: nat): (r: nat)
    requires lo <= k < hi
    ensures r >= 1
    decreases hi - lo
  {
    var mid := lo + (hi - lo) / 2;
    if k < mid then 1 + Steps(k, lo, mid)
    else if mid < k then 1 + Steps(k, mid + 1, hi)
    else 1
  }

  /** The search for a pc some row covers finds that row if and only if it is given the
      halvings its index takes. */
  lemma {:induction false} SearchExact(rows: seq<Row>, relPc: uint64, lo: nat, hi: nat, left: nat, k: nat)
    requires Table(rows) && lo <= k < hi <= |rows| && rows[k].Covers(relPc)
    ensures Search(rows, relPc, lo, hi, left) == if Steps(k, lo, hi) <= left then Some(k) else None
    decreases left
  {
    if left > 0 {
      var mid := lo + (hi - lo) / 2;
      if k < mid {
        Apart(rows, relPc, k, mid);
        SearchExact(rows, relPc, lo, mid, left - 1, k);
      } else if mid < k {
        Apart(rows, relPc, k, mid);
        SearchExact(rows, relPc, mid + 1, hi, left - 1, k);
      }
    }
  }

  lemma Apart(rows: seq<Row>, relPc: uint64, k: nat, m: nat)
    requires Table(rows) && k < |rows| && m < |rows| && k != m && rows[k].Covers(relPc)
    ensures k < m ==> relPc < rows[m].pcStart
    ensures m < k ==> relPc >= rows[m].pcStart && relPc >= Add64(rows[m].pcStart, rows[m].pcEndDelta)
  {
  }

  /** A window of fewer than 2^n rows never takes more than n halvings. */
  lemma {:induction false} StepsBound(k: nat, lo: nat, hi: nat, n: nat)
    requires lo <= k < hi && hi - lo < Pow2(n)
    ensures Steps(k, lo, hi) <= n
    decreases n
  {
    if n > 0 {
      var mid := lo + (hi - lo) / 2;
      if k < mid {
        StepsBound(k, lo, mid, n - 1);
      } else if mid < k {
        StepsBound(k, mid + 1, hi, n - 1);
      }
    }
  }

  /** The first of 2^n rows or more takes more than n: the window halves from the top
      every time. */
  lemma {:induction false} FirstRowFar(hi: nat, n: nat)
    requires hi >= Pow2(n)
    ensures Steps(0, 0, hi) > n
    decreases n
  {
    if n > 0 {
      assert hi / 2 >= Pow2(n - 1) >= 1;
      FirstRowFar(hi / 2, n - 1);
    }
  }

  /** Every lookup a table has an answer to is answered, and answered rightly. */
  ghost predicate Complete(rows: seq<Row>, iters: nat) {
    forall k, pc: uint64 :: 0 <= k < |rows| && rows[k].Covers(pc) ==> Search(rows, pc, 0, |rows|, iters) == Some(k)
  }

  /** Some pc is covered by a row: it is not empty and does not wrap. */
  ghost predicate Holds(r: Row) { exists pc: uint64 :: r.Covers(pc) }

  /** Exactly when a search of iters halvings is complete, for every sorted table: each row
      that holds anything is within reach. */
  lemma CompleteIff(rows: seq<Row>, iters: nat)
    requires Table(rows)
    ensures Complete(rows, iters) <==> forall k :: 0 <= k < |rows| && Holds(rows[k]) ==> Steps(k, 0, |rows|) <= iters
  {
    forall k, pc: uint64 | 0 <= k < |rows| && rows[k].Covers(pc)
      ensures Search(rows, pc, 0, |rows|, iters) == if Steps(k, 0, |rows|) <= iters then Some(k) else None
    {
      SearchExact(rows, pc, 0, |rows|, iters, k);
    }
    if Complete(rows, iters) {
      forall k | 0 <= k < |rows| && Holds(rows[k]) ensures Steps(k, 0, |rows|) <= iters {
        var pc: uint64 :| rows[k].Covers(pc);
        assert Search(rows, pc, 0, |rows|, iters) == Some(k);
      }
    }
  }

  lemma Pow2Values(n: nat)
    ensures Pow2(n + 8) == 256 * Pow2(n)
  {
    assert Pow2(n + 8) == 2 * Pow2(n + 7) == 4 * Pow2(n + 6) == 8 * Pow2(n + 5);
    assert Pow2(n + 5) == 2 * Pow2(n + 4) == 4 * Pow2(n + 3) == 8 * Pow2(n + 2);
    assert Pow2(n + 2) == 2 * Pow2(n + 1) == 4 * Pow2(n);
  }

  /** Below 2^iters rows the search is always complete; from there on it is not, as soon as
      the first row holds anything: that row's lookup is the one that fails. */
  lemma BoundTight(rows: seq<Row>, iters: nat)
    requires Table(rows)
    ensures |rows| < Pow2(iters) ==> Complete(rows, iters)
    ensures |rows| >= Pow2(iters) ==>
      forall pc: uint64 :: rows[0].Covers(pc) ==> Search(rows, pc, 0, |rows|, iters) == None
    ensures rows != [] && Holds(rows[0]) ==> (Complete(rows, iters) <==> |rows| < Pow2(iters))
  {
    CompleteIff(rows, iters);
    if |rows| < Pow2(iters) {
      forall k | 0 <= k < |rows| ensures Steps(k, 0, |rows|) <= iters {
        StepsBound(k, 0, |rows|, iters);
      }
    } else {
      FirstRowFar(|rows|, iters);
      forall pc: uint64 | rows[0].Covers(pc) ensures Search(rows, pc, 0, |rows|, iters) == None {
        SearchExact(rows, pc, 0, |rows|, iters, 0);
      }
    }
  }

  /** The walker's 24 halvings: complete below 2^24 rows; from 2^24 on the lookup of
      anything in the first row returns nothing. */
  lemma BoundExact(rows: seq<Row>)
    requires Table(rows)
    ensures |rows| < 0x100_0000 ==> Complete(rows, MAX_ITERS)
    ensures |rows| >= 0x100_0000 ==>
      forall pc: uint64 :: rows[0].Covers(pc) ==> Search(rows, pc, 0, |rows|, MAX_ITERS) == None
    ensures rows != [] && Holds(rows[0]) ==> (Complete(rows, MAX_ITERS) <==> |rows| < 0x100_0000)
  {
    Pow2Values(0);
    Pow2Values(8);
    Pow2Values(16);
    BoundTight(rows, MAX_ITERS);
  }
}
