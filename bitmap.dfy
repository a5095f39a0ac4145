/** The first-clear-bit scan shared by get_avail_ino and get_avail_blkno. */
module Bitmap {

  /** Where the do-while scan starting at `from` stops: at the first clear bit, or at the
      bound itself, which the scan also probes. */
  function ScanStop(bits: seq<bool>, bound: nat, from: nat): (k: nat)
    requires from <= bound < |bits|
    decreases bound - from
    ensures from <= k <= bound
    ensures forall j :: from <= j < k ==> bits[j]
    ensures k < bound ==> !bits[k]
  {
    if !bits[from] || from == bound then from else ScanStop(bits, bound, from + 1)
  }

  /** The bitmap after an allocation: the probe that stops the scan sets its bit if clear. */
  function AllocBits(bits: seq<bool>, bound: nat): (r: seq<bool>)
    requires bound < |bits|
    ensures |r| == |bits|
  {
    var k := ScanStop(bits, bound, 0);
    if bits[k] then bits else bits[k := true]
  }

  /** The index an allocation reports: the stopping index, or -1 once it reached the bound. */
  function AllocIndex(bits: seq<bool>, bound: nat): int
    requires bound < |bits|
  {
    var k := ScanStop(bits, bound, 0);
    if k < bound then k else -1
  }

  /** An allocation takes exactly the lowest clear bit below the bound; it fails exactly when
      every bit below the bound is set, and then the bit at the bound ends up set. */
  lemma AllocSpec(bits: seq<bool>, bound: nat)
    requires bound < |bits|
    ensures var r := AllocIndex(bits, bound);
      && (r == -1 <==> forall j :: 0 <= j < bound ==> bits[j])
      && (r != -1 ==> 0 <= r < bound && !bits[r] && (forall j :: 0 <= j < r ==> bits[j]))
      && (r != -1 ==> AllocBits(bits, bound) == bits[r := true])
      && (r == -1 ==> AllocBits(bits, bound) == bits[bound := true])
  {
    var k := ScanStop(bits, bound, 0);
    if k == bound && bits[k] {
      assert bits[bound := true] == bits;
    }
  }

  /** Two allocations in a row with no free between them return increasing indices. */
  lemma {:induction false} AllocTwiceIncreasing(bits: seq<bool>, bound: nat)
    requires bound < |bits|
    ensures var r1 := AllocIndex(bits, bound);
      var r2 := AllocIndex(AllocBits(bits, bound), bound);
      r1 != -1 && r2 != -1 ==> r1 < r2
  {
    var r1 := AllocIndex(bits, bound);
    var b1 := AllocBits(bits, bound);
    if r1 != -1 {
      AllocSpec(bits, bound);
      AllocSpec(b1, bound);
    }
  }

  /** k allocations in a row with no free between them, stopping after the first that
      fails, as a caller that gives up on the first -1 does: the bitmap they leave. */
  function AllocRun(bits: seq<bool>, bound: nat, k: nat): (r: seq<bool>)
    requires bound < |bits|
    ensures |r| == |bits|
    decreases k
  {
    if k == 0 then bits
    else if AllocIndex(bits, bound) == -1 then AllocBits(bits, bound)
    else AllocRun(AllocBits(bits, bound), bound, k - 1)
  }

  /** Whether one of those k allocations fails. */
  predicate RunFails(bits: seq<bool>, bound: nat, k: nat)
    requires bound < |bits|
    decreases k
  {
    k > 0 && (AllocIndex(bits, bound) == -1 || RunFails(AllocBits(bits, bound), bound, k - 1))
  }

  /** A run of one allocation is that allocation. */
  lemma RunOfOne(bits: seq<bool>, bound: nat)
    requires bound < |bits|
    ensures AllocRun(bits, bound, 1) == AllocBits(bits, bound)
    ensures RunFails(bits, bound, 1) <==> AllocIndex(bits, bound) == -1
  {
  }

  /** A run of two allocations stops after the first when it fails. */
  lemma RunOfTwo(bits: seq<bool>, bound: nat)
    requires bound < |bits|
    ensures AllocRun(bits, bound, 2) ==
      if AllocIndex(bits, bound) == -1 then AllocBits(bits, bound)
      else AllocBits(AllocBits(bits, bound), bound)
    ensures RunFails(bits, bound, 2) <==>
      AllocIndex(bits, bound) == -1 || AllocIndex(AllocBits(bits, bound), bound) == -1
  {
    RunOfOne(AllocBits(bits, bound), bound);
  }

  /** The indices k allocations in a row report, failures included. */
  function AllocIndices(bits: seq<bool>, bound: nat, k: nat): (s: seq<int>)
    requires bound < |bits|
    ensures |s| == k
    decreases k
  {
    if k == 0 then [] else [AllocIndex(bits, bound)] + AllocIndices(AllocBits(bits, bound), bound, k - 1)
  }

  /** Once every bit below m is set, no allocation reports an index below m. */
  lemma {:induction false} AllocsAbove(bits: seq<bool>, bound: nat, k: nat, m: nat)
    requires bound < |bits| && m <= |bits|
    requires forall j :: 0 <= j < m ==> bits[j]
    ensures forall q :: 0 <= q < k ==> AllocIndices(bits, bound, k)[q] == -1 || AllocIndices(bits, bound, k)[q] >= m
    decreases k
  {
    if k > 0 {
      AllocSpec(bits, bound);
      var b1 := AllocBits(bits, bound);
      AllocsAbove(b1, bound, k - 1, m);
      var s := AllocIndices(bits, bound, k);
      assert s == [AllocIndex(bits, bound)] + AllocIndices(b1, bound, k - 1);
      forall q | 0 <= q < k
        ensures s[q] == -1 || s[q] >= m
      {
        if q > 0 {
          assert s[q] == AllocIndices(b1, bound, k - 1)[q - 1];
        }
      }
    }
  }

  /** The indices that did not fail strictly increase along s. */
  predicate Increasing(s: seq<int>) {
    forall p, q :: 0 <= p < q < |s| && s[p] != -1 && s[q] != -1 ==> s[p] < s[q]
  }

  /** Allocations with no free between them hand out strictly increasing indices, so no
      index twice. */
  lemma {:induction false} AllocsIncreasing(bits: seq<bool>, bound: nat, k: nat)
    requires bound < |bits|
    ensures Increasing(AllocIndices(bits, bound, k))
    decreases k
  {
    if k > 0 {
      var r1 := AllocIndex(bits, bound);
      var b1 := AllocBits(bits, bound);
      var s := AllocIndices(bits, bound, k);
      var t := AllocIndices(b1, bound, k - 1);
      assert s == [r1] + t;
      AllocsIncreasing(b1, bound, k - 1);
      if r1 != -1 {
        AllocSpec(bits, bound);
        AllocsAbove(b1, bound, k - 1, r1 + 1);
      }
      forall p, q | 0 <= p < q < k && s[p] != -1 && s[q] != -1
        ensures s[p] < s[q]
      {
        assert s[q] == t[q - 1];
        if p > 0 {
          assert s[p] == t[p - 1];
        } else {
          assert s[p] == r1 && t[q - 1] >= r1 + 1;
        }
      }
    }
  }
}
