/** Kraft sums of code lengths, in units of `2^-unit`. */
module Kraft {
  import opened Bits
  import opened Counting

  /** The longest code word that is ever used. */
  const HUF_TABLELOG_MAX := 12

  /** The share of a code word of `b` bits. */
  function Share(unit: nat, b: int): nat
  {
    if 0 <= b <= unit then Pow2(unit - b) else 0
  }

  /** The sum of the shares of the first `k` code words. */
  function Sum(bits: seq<int>, k: nat, unit: nat): nat
    requires k <= |bits|
  {
    if k == 0 then 0 else Sum(bits, k - 1, unit) + Share(unit, bits[k - 1])
  }

  lemma {:induction false} SumUpdate(bits: seq<int>, k: nat, unit: nat, at: nat, b: int)
    requires k <= |bits| && at < |bits|
    ensures Sum(bits[at := b], k, unit) ==
            if at < k then Sum(bits, k, unit) + Share(unit, b) - Share(unit, bits[at])
            else Sum(bits, k, unit)
    decreases k
  {
    hide Share;
    if k > 0 { SumUpdate(bits, k - 1, unit, at, b); }
  }

  lemma {:induction false} SumMono(bits: seq<int>, j: nat, k: nat, unit: nat)
    requires j <= k <= |bits|
    ensures Sum(bits, j, unit) <= Sum(bits, k, unit)
    decreases k
  {
    hide Share;
    if j < k { SumMono(bits, j, k - 1, unit); }
  }

  lemma {:induction false} SumSame(a: seq<int>, b: seq<int>, k: nat, unit: nat)
    requires k <= |a| && k <= |b| && forall i :: 0 <= i < k ==> a[i] == b[i]
    ensures Sum(a, k, unit) == Sum(b, k, unit)
  {
    if k > 0 { SumSame(a, b, k - 1, unit); }
  }

  /** With all words of the full length, the sum counts them. */
  lemma {:induction false} SumFlat(bits: seq<int>, k: nat, unit: nat)
    requires k <= |bits| && forall i :: 0 <= i < k ==> bits[i] == unit
    ensures Sum(bits, k, unit) == k
  {
    if k > 0 { SumFlat(bits, k - 1, unit); }
  }

  /** A finer unit scales the sum. */
  lemma {:induction false} SumScale(bits: seq<int>, k: nat, unit: nat, fine: nat)
    requires k <= |bits| && unit <= fine && forall i :: 0 <= i < k ==> 0 <= bits[i] <= unit
    ensures Sum(bits, k, fine) == Shl(Sum(bits, k, unit), fine - unit)
    decreases k
  {
    if k == 0 {
      ShlZero(fine - unit);
    } else {
      SumScale(bits, k - 1, unit, fine);
      ShareScale(bits[k - 1], unit, fine);
      ShlAdd(Sum(bits, k - 1, unit), Share(unit, bits[k - 1]), fine - unit);
    }
  }

  lemma ShareScale(b: int, unit: nat, fine: nat)
    requires 0 <= b <= unit <= fine
    ensures Share(fine, b) == Shl(Share(unit, b), fine - unit)
  {
    hide Pow2, Shl;
    ShlOne(unit - b);
    ShlOne(fine - b);
    ShlShl(1, unit - b, fine - unit);
  }

  /** When every word has either the full length or is shorter by at least `k`,
      the sum is the number of full ones plus a multiple of `2^k`. */
  lemma {:induction false} SumGap(bits: seq<int>, m: nat, unit: nat, k: nat) returns (q: nat)
    requires m <= |bits| && k <= unit
    requires forall i :: 0 <= i < m ==> 0 <= bits[i] <= unit && (bits[i] == unit || bits[i] <= unit - k)
    ensures Sum(bits, m, unit) == Rank(bits, m, unit) + Shl(q, k)
    decreases m
  {
    if m == 0 {
      q := 0;
      ShlZero(k);
    } else {
      var p := SumGap(bits, m - 1, unit, k);
      var b := bits[m - 1];
      if b == unit {
        q := p;
      } else {
        q := p + Pow2(unit - b - k);
        ShlAdd(p, Pow2(unit - b - k), k);
        PowerSplit(unit - b - k, k);
      }
    }
  }

  lemma PowerSplit(a: nat, k: nat)
    ensures Shl(Pow2(a), k) == Pow2(a + k)
  {
    hide Pow2, Shl;
    ShlOne(a);
    ShlShl(1, a, k);
    ShlOne(a + k);
  }

  ghost predicate Rising(bits: seq<int>)
  {
    forall i, j :: 0 <= i <= j < |bits| ==> bits[i] <= bits[j]
  }
}
