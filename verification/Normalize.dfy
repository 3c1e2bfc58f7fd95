/** `FSE_normalizeCount`: scaling a histogram to a power of two without losing a cell
    or a symbol. */
module Normalize {
  import opened Bits
  import opened Counting
  import opened Results
  import opened FseSpread
  import opened Shares

  const DEFAULT_TABLELOG := 11

  /** `FSE_minTableLog`. */
  function MinTableLog(srcSize: nat, maxSymbolValue: nat): nat
    requires srcSize > 1 && maxSymbolValue > 0
  {
    var minBitsSrc, minBitsSymbols := Highbit(srcSize) + 1, Highbit(maxSymbolValue) + 2;
    if minBitsSrc < minBitsSymbols then minBitsSrc else minBitsSymbols
  }

  /** `FSE_optimalTableLog_internal`; the first subtraction wraps in 32 bits. */
  function OptimalTableLog(maxTableLog: nat, srcSize: nat, maxSymbolValue: nat, minus: nat): (tableLog: nat)
    requires srcSize > 1 && maxSymbolValue > 0
    ensures MIN_TABLELOG <= tableLog <= MAX_TABLELOG
    ensures maxSymbolValue <= MAX_SYMBOL_VALUE ==> MinTableLog(srcSize, maxSymbolValue) <= tableLog
  {
    var maxBitsSrc := (Highbit(srcSize - 1) - minus) % 0x1_0000_0000;
    var t0 := if maxTableLog == 0 then DEFAULT_TABLELOG else maxTableLog;
    var t1 := if maxBitsSrc < t0 then maxBitsSrc else t0;
    var minBits := MinTableLog(srcSize, maxSymbolValue);
    var t2 := if minBits > t1 then minBits else t1;
    var t3 := if t2 < MIN_TABLELOG then MIN_TABLELOG else t2;
    SymbolBits(maxSymbolValue);
    if t3 > MAX_TABLELOG then MAX_TABLELOG else t3
  }

  /** A wish that the source and the format support is granted. */
  lemma WishGranted(maxTableLog: nat, srcSize: nat, maxSymbolValue: nat, minus: nat)
    requires srcSize > 1 && maxSymbolValue > 0 && MIN_TABLELOG <= maxTableLog <= MAX_TABLELOG
    requires MinTableLog(srcSize, maxSymbolValue) <= maxTableLog <= Highbit(srcSize - 1) - minus < 0x1_0000_0000
    ensures OptimalTableLog(maxTableLog, srcSize, maxSymbolValue, minus) == maxTableLog
  {}

  /** A source with fewer bits gets a smaller table, but never one below the minimum. */
  lemma ShortSource(maxTableLog: nat, srcSize: nat, maxSymbolValue: nat, minus: nat)
    requires srcSize > 1 && 0 < maxSymbolValue <= MAX_SYMBOL_VALUE && maxTableLog > 0
    requires MIN_TABLELOG <= Highbit(srcSize - 1) - minus < maxTableLog && Highbit(srcSize - 1) - minus <= MAX_TABLELOG
    ensures OptimalTableLog(maxTableLog, srcSize, maxSymbolValue, minus)
            == Max(Highbit(srcSize - 1) - minus, MinTableLog(srcSize, maxSymbolValue))
  {
    hide Highbit, Pow2;
    SymbolBits(maxSymbolValue);
  }

  /** For a source of up to four bytes the subtraction wraps, and nothing is reduced. */
  lemma TinySource(srcSize: nat, maxSymbolValue: nat)
    requires 2 <= srcSize <= 4 && maxSymbolValue > 0
    ensures OptimalTableLog(0, srcSize, maxSymbolValue, 2) == DEFAULT_TABLELOG
  {
    Pow2Values();
    HighbitBounds(srcSize - 1);
    HighbitBounds(srcSize);
    if Highbit(srcSize - 1) >= 2 { Pow2Mono(2, Highbit(srcSize - 1)); }
    if Highbit(srcSize) >= 3 { Pow2Mono(3, Highbit(srcSize)); }
  }

  lemma SymbolBits(maxSymbolValue: nat)
    requires maxSymbolValue > 0
    ensures maxSymbolValue <= MAX_SYMBOL_VALUE ==> Highbit(maxSymbolValue) < 8
  {
    Pow2Values();
    HighbitBounds(maxSymbolValue);
    if Highbit(maxSymbolValue) >= 8 { Pow2Mono(8, Highbit(maxSymbolValue)); }
  }

  /** What normalising is for: the cells add up, every symbol that occurs keeps at
      least one, no other gets any, and only rare symbols are marked as such. */
  ghost predicate Normalised(norm: seq<int>, count: seq<nat>, tableLog: nat, total: nat, useLowProb: bool)
  {
    && |norm| == |count| && Cum(norm, |norm|) == Pow2(tableLog)
    && forall s :: 0 <= s < |norm| ==> Fair(norm[s], count[s], Shr(total, tableLog), useLowProb)
  }

  predicate Fair(n: int, c: nat, lowThreshold: nat, useLowProb: bool)
  {
    n >= -1 && (n == 0 <==> c == 0) && (n == -1 ==> useLowProb && c <= lowThreshold)
  }

  /** The input of the normalisation: more symbols than one, and a table log that the
      sanity checks accept. */
  ghost predicate Histogram(count: seq<nat>, total: nat, tableLog: nat)
  {
    && 2 <= |count| <= MAX_SYMBOL_VALUE + 1 && 1 < total < 0x8000_0000 && SumOf(count, |count|) == total
    && MIN_TABLELOG <= tableLog <= MAX_TABLELOG && MinTableLog(total, |count| - 1) <= tableLog
  }

  // ----- there is room, and not everything is rare -----

  lemma {:induction false} SumAtMost(count: seq<nat>, k: nat, cap: nat)
    requires k <= |count| && forall s :: 0 <= s < k ==> count[s] <= cap
    ensures SumOf(count, k) <= k * cap
  {
    if k > 0 {
      SumAtMost(count, k - 1, cap);
      assert k * cap == (k - 1) * cap + cap;
    }
  }

  /** A positive threshold takes a table of at least twice the alphabet. */
  lemma RoomForAll(count: seq<nat>, total: nat, tableLog: nat)
    requires Histogram(count, total, tableLog)
    ensures total < Pow2(tableLog) || 2 * |count| <= Pow2(tableLog)
    ensures total < Pow2(tableLog) <==> Shr(total, tableLog) == 0
  {
    hide Shr, Low, Highbit;
    ShlOne(tableLog);
    ShrVersusShl(total, 1, tableLog);
    var h := Highbit(|count| - 1);
    HighbitBounds(|count| - 1);
    HighbitBounds(total);
    if tableLog >= Highbit(total) + 1 {
      Pow2Mono(Highbit(total) + 1, tableLog);
    } else {
      Pow2Mono(h + 2, tableLog);
      Pow2Next(h + 1);
    }
  }

  /** Some symbol is above the threshold. */
  lemma SomeCommon(count: seq<nat>, total: nat, tableLog: nat) returns (s: nat)
    requires Histogram(count, total, tableLog)
    ensures s < |count| && count[s] > Shr(total, tableLog)
  {
    hide Shr, Pow2, MinTableLog, SumOf;
    var low := Shr(total, tableLog);
    RoomForAll(count, total, tableLog);
    if forall i :: 0 <= i < |count| ==> count[i] <= low {
      SumAtMost(count, |count|, low);
      ShrVersusShl(total, low, tableLog);
      ShlIsMul(low, tableLog);
      MulMono(2 * |count|, Pow2(tableLog), low);
      DoubleProduct(|count|, low);
    }
    s :| 0 <= s < |count| && count[s] > low;
  }

  // ----- the direct scaling -----

  /** A symbol above the threshold gets at least one cell: the division that makes
      `step` loses less than one step. */
  lemma ProbaPositive(c: nat, total: nat, tableLog: nat, step: nat)
    requires 1 < total < 0x8000_0000 && tableLog <= MAX_TABLELOG && step == Pow2(62) / total
    requires c > Shr(total, tableLog)
    ensures Shr(c * step, 62 - tableLog) >= 1
  {
    hide Shr, Shl, Pow2;
    Pow2Wide();
    ShrVersusShl(total, c, tableLog);
    ShlIsMul(c, tableLog);
    ShlIsMul(c * step, tableLog);
    assert total < c * Pow2(tableLog);
    MulMono(total + 1, c * Pow2(tableLog), step);
    Division(Pow2(62), total, step);
    Rearrange(c, step, Pow2(tableLog));
    ShlOne(62 - tableLog);
    PowerSplitAt(tableLog);
    if c * step < Pow2(62 - tableLog) { ShlMono(c * step, Pow2(62 - tableLog), tableLog); }
    ShrVersusShl(c * step, 1, 62 - tableLog);
  }

  lemma PowerSplitAt(tableLog: nat)
    requires tableLog <= MAX_TABLELOG
    ensures Shl(Pow2(62 - tableLog), tableLog) == Pow2(62)
  {
    hide Shl, Pow2;
    ShlOne(62 - tableLog);
    ShlShl(1, 62 - tableLog, tableLog);
    ShlOne(62);
  }

  lemma Rearrange(c: nat, step: nat, p: nat)
    ensures c * p * step == c * step * p
  {}

  lemma Division(p: nat, total: nat, step: nat)
    requires total > 0 && step == p / total && total <= step
    ensures (total + 1) * step >= p
  {
    assert p == total * step + p % total;
    assert (total + 1) * step == total * step + step;
  }

  /** The cells given to the first `k` symbols change only with their counts. */
  lemma {:induction false} CumSame(a: seq<int>, b: seq<int>, k: nat)
    requires k <= |a| && k <= |b| && forall i :: 0 <= i < k ==> a[i] == b[i]
    ensures Cum(a, k) == Cum(b, k)
  {
    if k > 0 { CumSame(a, b, k - 1); }
  }

  lemma {:induction false} CumUpdate(a: seq<int>, k: nat, i: nat, x: int)
    requires i < k <= |a|
    ensures Cum(a[i := x], k) == Cum(a, k) + Weight(x) - Weight(a[i])
  {
    if i == k - 1 {
      CumSame(a[i := x], a, k - 1);
    } else {
      CumUpdate(a, k - 1, i, x);
    }
  }

  lemma CumExtend(a: seq<int>, b: seq<int>, k: nat)
    requires k < |a| && |a| == |b| && forall i :: 0 <= i < k ==> a[i] == b[i]
    ensures Cum(b, k + 1) == Cum(a, k) + Weight(b[k])
  {
    CumSame(a, b, k);
  }

  /** What the direct scaling gives a symbol that occurs `c` times: one cell, marked if
      so wanted, for the share of one cell or less; otherwise the share, rounded. */
  ghost predicate Direct(n: int, c: nat, total: nat, cells: nat, lowProbCount: int)
  {
    if c == 0 then n == 0
    else if Rare(c, total, cells) then n == lowProbCount
    else Rounded(n, c * cells, total)
  }

  /** The share of one cell or less. */
  ghost predicate Rare(c: nat, total: nat, cells: nat) { c * cells <= total }

  /** The share of one and a half cells or less. */
  ghost predicate Scarce(c: nat, total: nat, cells: nat) { 2 * (c * cells) <= 3 * total }

  /** The shares of the direct scaling; `largest` is the first of those with most cells
      that has more than the share of one cell. */
  ghost predicate DirectShares(norm: seq<int>, largest: nat, count: seq<nat>, total: nat, cells: nat, lowProbCount: int)
  {
    && |norm| == |count| && largest < |count| && norm[largest] >= 1 && !Rare(count[largest], total, cells)
    && (forall s :: 0 <= s < |count| ==> Direct(norm[s], count[s], total, cells, lowProbCount))
    && (forall s :: 0 <= s < |count| ==> norm[s] <= norm[largest])
    && (forall s :: 0 <= s < largest ==> norm[s] < norm[largest] || Rare(count[s], total, cells))
  }

  lemma Threshold(c: nat, x: nat, n: nat)
    ensures c <= Shr(x, n) <==> Rare(c, x, Pow2(n))
    ensures Rare(0, x, Pow2(n))
  {
    hide Shr, Shl, Pow2;
    ShrVersusShl(x, c, n);
    ShlIsMul(c, n);
  }

  /** A scaled count, rounded up where a small one would lose much. */
  function Proba(scaled: nat, scale: nat, vStep: nat): nat
  {
    var p := Shr(scaled, scale);
    if p < 8 && scaled - Shl(p, scale) > vStep * RTB_TABLE[p] then p + 1 else p
  }

  lemma ProbaBounds(scaled: nat, scale: nat, q: nat)
    requires 20 <= scale && q == Pow2(scale - 20)
    ensures var p, n := Shr(scaled, scale), Proba(scaled, scale, q);
      && (n == p || (n == p + 1 && p < 8 && scaled >= (0x10_0000 * p + RTB_TABLE[p]) * q))
      && (n == p ==> scaled <= (0x10_0000 * p + if p < 8 then RTB_TABLE[p] else 0x10_0000) * q)
      && (0x10_0000 * p) * q <= scaled <= (0x10_0000 * p + 0x10_0000) * q
  {
    hide Shr, Shl, Low, Pow2;
    var p := Shr(scaled, scale);
    PowerOfScale(scale);
    Split(scaled, scale);
    LowBound(scaled, scale);
    ShlIsMul(p, scale);
    var rest := if p < 8 then RTB_TABLE[p] else 0x10_0000;
    PartsOf(p, q, 0);
    PartsOf(p, q, rest);
    PartsOf(p, q, 0x10_0000);
  }

  lemma PartsOf(p: nat, q: nat, rest: nat)
    ensures (0x10_0000 * p + rest) * q == p * (0x10_0000 * q) + q * rest
  {}

  lemma PowerOfScale(scale: nat)
    requires 20 <= scale
    ensures Pow2(scale) == 0x10_0000 * Pow2(scale - 20)
  {
    hide Pow2;
    Pow2Values();
    Pow2Add(16, 4);
    Pow2Add(20, scale - 20);
  }

  /** The scaling with one division rounds the exact share. */
  lemma ProbaRounded(c: nat, total: nat, tableLog: nat, step: nat, scale: nat, q: nat)
    requires 0 < c <= total && 1 < total < 0x8000_0000 && tableLog <= MAX_TABLELOG && step == Pow2(62) / total
    requires c > Shr(total, tableLog) && scale == 62 - tableLog && q == Pow2(scale - 20)
    ensures Rounded(Proba(c * step, scale, q), c * Pow2(tableLog), total)
  {
    hide Shr, Shl, Pow2, Proba;
    var scaled, part := c * step, c * Pow2(tableLog);
    ProbaPositive(c, total, tableLog, step);
    ScaledPart(c, total, tableLog, step);
    ProbaBounds(scaled, scale, q);
    PowerOfScale(scale);
    Pow2Wide();
    Pow2Mono(30, scale - 20);
    ProbaCases(Proba(scaled, scale, q), Shr(scaled, scale), scaled, q, part, total);
  }

  lemma ProbaCases(n: nat, p: nat, scaled: nat, q: nat, part: nat, total: nat)
    requires p >= 1 && q >= 0x4000_0000
    requires n == p || (n == p + 1 && p < 8 && scaled >= (0x10_0000 * p + RTB_TABLE[p]) * q)
    requires n == p ==> scaled <= (0x10_0000 * p + if p < 8 then RTB_TABLE[p] else 0x10_0000) * q
    requires (0x10_0000 * p) * q <= scaled <= (0x10_0000 * p + 0x10_0000) * q
    requires total * scaled <= (0x10_0000 * q) * part < total * (scaled + 0x8000_0000)
    ensures Rounded(n, part, total)
  {
    CutoffIs(p);
    if n == p {
      var rest := if p < 8 then RTB_TABLE[p] else 0x10_0000;
      KeptBound(p, scaled, q, rest, part, total);
      RaisedBound(p, scaled, q, 0, part, total);
      KeptRounded(p, rest, part, total);
    } else {
      CutoffIs(n);
      KeptBound(p, scaled, q, 0x10_0000, part, total);
      RaisedBound(p, scaled, q, RTB_TABLE[p], part, total);
      RaisedRounded(p, RTB_TABLE[p], part, total);
    }
  }

  /** The shares of the first `k` symbols; `p` is the largest for more than the share of
      one cell, and `largest` the first symbol that has it. */
  ghost predicate ScaledTo(norm: seq<int>, k: nat, largest: nat, p: int, count: seq<nat>, total: nat, cells: nat, lowProbCount: int)
  {
    && k <= |norm| == |count| && largest < |count| && largest <= k && p >= 0
    && (forall i :: 0 <= i < k ==> Direct(norm[i], count[i], total, cells, lowProbCount))
    && (forall i :: 0 <= i < k ==> norm[i] <= p || Rare(count[i], total, cells))
    && (forall i :: 0 <= i < largest ==> norm[i] < p || Rare(count[i], total, cells))
    && (p > 0 ==> largest < k && norm[largest] == p && !Rare(count[largest], total, cells))
  }

  lemma ScaleStep(a: seq<int>, b: seq<int>, k: nat, largest: nat, p: int, count: seq<nat>, total: nat, cells: nat, lowProbCount: int)
    requires ScaledTo(a, k, largest, p, count, total, cells, lowProbCount) && k < |a| == |b|
    requires forall i :: 0 <= i < k ==> b[i] == a[i]
    requires Direct(b[k], count[k], total, cells, lowProbCount)
    ensures if !Rare(count[k], total, cells) && b[k] > p
      then ScaledTo(b, k + 1, k, b[k], count, total, cells, lowProbCount)
      else ScaledTo(b, k + 1, largest, p, count, total, cells, lowProbCount)
  {
    hide Direct, Rare;
  }

  lemma ScaledWhole(norm: seq<int>, largest: nat, p: int, count: seq<nat>, total: nat, cells: nat, lowProbCount: int, s: nat)
    requires ScaledTo(norm, |norm|, largest, p, count, total, cells, lowProbCount) && (lowProbCount == 1 || lowProbCount == -1)
    requires s < |norm| && !Rare(count[s], total, cells)
    ensures DirectShares(norm, largest, count, total, cells, lowProbCount)
  {
    assert Rare(0, total, cells);
    assert Direct(norm[s], count[s], total, cells, lowProbCount) && norm[s] >= 1;
    forall i | 0 <= i < |norm| ensures norm[i] <= norm[largest] {
      assert Direct(norm[i], count[i], total, cells, lowProbCount);
    }
  }

  /** The direct scaling of every count.  `rle` means that one symbol is all there is. */
  method ScaleAll(norm: array<int>, tableLog: nat, count: seq<nat>, total: nat, lowProbCount: int)
    returns (rle: bool, stillToDistribute: int, largest: nat)
    requires Histogram(count, total, tableLog) && norm.Length == |count| && (lowProbCount == 1 || lowProbCount == -1)
    modifies norm
    ensures rle <==> exists s :: 0 <= s < |count| && count[s] == total
    ensures !rle ==> DirectShares(norm[..], largest, count, total, Pow2(tableLog), lowProbCount)
    ensures !rle ==> stillToDistribute == Pow2(tableLog) - Cum(norm[..], |count|)
  {
    hide Shr, Shl, Pow2, Highbit, SumOf, Proba, MinTableLog, Rounded, Rare, ScaledTo, DirectShares, Cum;
    var scale := 62 - tableLog;
    var step := Pow2(62) / total;
    var vStep := Pow2(scale - 20);
    stillToDistribute, largest := Pow2(tableLog), 0;
    var largestP: int := 0;
    var lowThreshold := Shr(total, tableLog);
    ghost var cells := Pow2(tableLog);
    NoneScaled(norm[..], count, total, cells, lowProbCount);
    for s := 0 to |count|
      invariant forall i :: 0 <= i < s ==> count[i] != total
      invariant ScaledTo(norm[..], s, largest, largestP, count, total, cells, lowProbCount)
      invariant stillToDistribute == cells - Cum(norm[..], s)
    {
      ghost var before := norm[..];
      Threshold(count[s], total, tableLog);
      if count[s] == total { return true, stillToDistribute, largest; }
      var share := 0;
      ghost var was, wasP := largest, largestP;
      if 0 < count[s] <= lowThreshold {
        share := lowProbCount;
      } else if count[s] > 0 {
        SumOfMember(count, |count|, s);
        ProbaRounded(count[s], total, tableLog, step, scale, vStep);
        share := Proba(count[s] * step, scale, vStep);
        if share > largestP { largestP, largest := share, s; }
      }
      norm[s] := share;
      stillToDistribute := stillToDistribute - Weight(share);
      ScaleStep(before, norm[..], s, was, wasP, count, total, cells, lowProbCount);
      CumExtend(before, norm[..], s);
    }
    rle := false;
    ghost var common := SomeCommon(count, total, tableLog);
    Threshold(count[common], total, tableLog);
    ScaledWhole(norm[..], largest, largestP, count, total, cells, lowProbCount, common);
  }

  lemma NoneScaled(norm: seq<int>, count: seq<nat>, total: nat, cells: nat, lowProbCount: int)
    requires |norm| == |count| > 0
    ensures ScaledTo(norm, 0, 0, 0, count, total, cells, lowProbCount) && Cum(norm, 0) == 0
  {}

  // ----- the second method -----

  const NOT_YET_ASSIGNED := -2

  /** What the second method has given a symbol so far. */
  ghost predicate SecondShare(n: int, c: nat, lowThreshold: nat, lowProbCount: int)
  {
    if c == 0 then n == 0
    else if c <= lowThreshold then n == lowProbCount
    else n == 1 || n == NOT_YET_ASSIGNED
  }

  ghost predicate Shared(norm: seq<int>, count: seq<nat>, k: nat, lowThreshold: nat, lowProbCount: int)
  {
    && k <= |norm| && k <= |count| && (lowProbCount == 1 || lowProbCount == -1)
    && forall s :: 0 <= s < k ==> SecondShare(norm[s], count[s], lowThreshold, lowProbCount)
  }

  /** The symbols among the first `k` that have got their cell. */
  function Distributed(norm: seq<int>, k: nat): (d: nat)
    requires k <= |norm|
    ensures d <= k
  {
    if k == 0 then 0
    else Distributed(norm, k - 1) + (if norm[k - 1] == 0 || norm[k - 1] == NOT_YET_ASSIGNED then 0 else 1)
  }

  /** The occurrences of those that have not. */
  function Rest(norm: seq<int>, count: seq<nat>, k: nat): nat
    requires k <= |norm| && k <= |count|
  {
    if k == 0 then 0
    else Rest(norm, count, k - 1) + (if norm[k - 1] == NOT_YET_ASSIGNED then count[k - 1] else 0)
  }

  lemma {:induction false} SameParts(a: seq<int>, b: seq<int>, count: seq<nat>, k: nat)
    requires k <= |a| && k <= |b| && k <= |count| && forall i :: 0 <= i < k ==> a[i] == b[i]
    ensures Distributed(a, k) == Distributed(b, k) && Rest(a, count, k) == Rest(b, count, k)
  {
    if k > 0 { SameParts(a, b, count, k - 1); }
  }

  lemma {:induction false} PartsBound(norm: seq<int>, count: seq<nat>, k: nat, lowThreshold: nat, lowProbCount: int)
    requires Shared(norm, count, k, lowThreshold, lowProbCount)
    ensures Distributed(norm, k) + Rest(norm, count, k) <= SumOf(count, k)
  {
    if k > 0 { PartsBound(norm, count, k - 1, lowThreshold, lowProbCount); }
  }

  /** The first pass: one cell for the share of one cell and a half or less. */
  ghost function Early(c: nat, total: nat, cells: nat, lowProbCount: int): int
  {
    if c == 0 then 0
    else if Rare(c, total, cells) then lowProbCount
    else if Scarce(c, total, cells) then 1
    else NOT_YET_ASSIGNED
  }

  ghost predicate FirstPass(norm: seq<int>, k: nat, count: seq<nat>, total: nat, cells: nat, lowProbCount: int)
  {
    && k <= |norm| && k <= |count|
    && forall s :: 0 <= s < k ==> norm[s] == Early(count[s], total, cells, lowProbCount)
  }

  lemma EarlyIs(c: nat, total: nat, tableLog: nat, lowProbCount: int)
    ensures Early(c, total, Pow2(tableLog), lowProbCount)
            == if c == 0 then 0 else if c <= Shr(total, tableLog) then lowProbCount
               else if c <= Shr(total * 3, tableLog + 1) then 1 else NOT_YET_ASSIGNED
    ensures Scarce(c, total, Pow2(tableLog)) <==> c <= Shr(total * 3, tableLog + 1)
  {
    hide Shr, Pow2, Rare;
    Threshold(c, total, tableLog);
    Threshold(c, total * 3, tableLog + 1);
    Pow2Next(tableLog);
    RareTwice(c, total, Pow2(tableLog));
  }

  lemma RareTwice(c: nat, total: nat, cells: nat)
    ensures Rare(c, total * 3, 2 * cells) <==> Scarce(c, total, cells)
  {
    assert c * (2 * cells) == 2 * (c * cells);
  }

  /** A second pass is made if even the average of what is left of the symbols is above a
      share and a half: those of at most one and a half of the cells left get one too. */
  ghost predicate SecondPass(norm: seq<int>, was: seq<int>, count: seq<nat>, total: nat, cells: nat)
  {
    && |norm| == |was| == |count| && Distributed(was, |was|) < cells
    && var rest, left := Rest(was, count, |was|), cells - Distributed(was, |was|);
      if Scarce(rest / left, total, cells) then norm == was
      else forall s :: 0 <= s < |count| ==>
        norm[s] == if was[s] == NOT_YET_ASSIGNED && Scarce(count[s], rest, left) then 1 else was[s]
  }

  lemma QuotientScarce(c: nat, rest: nat, left: nat)
    requires left > 0
    ensures c <= rest * 3 / (left * 2) <==> Scarce(c, rest, left)
  {
    var q, d := rest * 3 / (left * 2), left * 2;
    Quotient(rest * 3, d);
    assert c * d == 2 * (c * left);
    if c <= q { MulMono(c, q, d); } else { MulMono(q + 1, c, d); }
  }

  /** The first of the most frequent symbols. */
  ghost predicate MostFrequent(count: seq<nat>, m: nat)
  {
    m < |count| && (forall s :: 0 <= s < |count| ==> count[s] <= count[m]) && forall s :: 0 <= s < m ==> count[s] < count[m]
  }

  /** One cell at a time to every symbol with a positive number of cells, so many turns
      and then up to the symbol `stop`. */
  ghost predicate Dealt(norm: seq<int>, was: seq<int>, turns: nat, stop: nat)
  {
    && |norm| == |was|
    && forall s :: 0 <= s < |norm| ==>
      norm[s] == if was[s] > 0 then was[s] + turns + (if s < stop then 1 else 0) else was[s]
  }

  /** The symbols left share the cells in proportion: at no point does the sum drift. */
  ghost predicate Interpolated(norm: seq<int>, was: seq<int>, count: seq<nat>, cells: nat)
  {
    && |norm| == |was| == |count|
    && (forall s :: 0 <= s < |norm| && was[s] != NOT_YET_ASSIGNED ==> norm[s] == was[s])
    && forall k :: 0 <= k <= |norm| ==>
      NoDrift(Cum(norm, k) - Distributed(was, k), Rest(was, count, k), Rest(was, count, |was|), cells)
  }

  /** How the cells left after the passes are handed out. */
  ghost predicate HandedOut(norm: seq<int>, was: seq<int>, count: seq<nat>, cells: nat)
  {
    && |norm| == |was| == |count|
    && if Distributed(was, |was|) == |was| then exists m: nat :: MostFrequent(count, m) && norm == was[m := was[m] + cells]
       else if Rest(was, count, |was|) == 0 then exists turns: nat, stop: nat :: Dealt(norm, was, turns, stop)
       else Interpolated(norm, was, count, cells)
  }

  /** What `NormalizeM2` leaves. */
  ghost predicate SecondMethod(norm: seq<int>, count: seq<nat>, total: nat, cells: nat, lowProbCount: int)
  {
    exists first: seq<int>, early: seq<int> ::
      && FirstPass(first, |count|, count, total, cells, lowProbCount) && SecondPass(early, first, count, total, cells)
      && Distributed(early, |early|) <= cells && HandedOut(norm, early, count, cells - Distributed(early, |early|))
  }

  /** A symbol that shares in the interpolation gets its share, to less than one and a
      half cells. */
  lemma InterpolatedNear(norm: seq<int>, was: seq<int>, count: seq<nat>, cells: nat, s: nat)
    requires Interpolated(norm, was, count, cells) && s < |norm| && was[s] == NOT_YET_ASSIGNED
    ensures var rest := Rest(was, count, |was|); var share := Weight(norm[s]);
      2 * (share * rest) < 2 * (count[s] * cells) + 3 * rest && 2 * (count[s] * cells) < 2 * (share * rest) + 3 * rest
  {
    hide NoDrift;
    var rest := Rest(was, count, |was|);
    var g, h := Cum(norm, s) - Distributed(was, s), Cum(norm, s + 1) - Distributed(was, s + 1);
    DriftAt(norm, was, count, cells, s);
    DriftAt(norm, was, count, cells, s + 1);
    DriftStep(g, Weight(norm[s]), Rest(was, count, s), count[s], rest, cells);
  }

  lemma DriftAt(norm: seq<int>, was: seq<int>, count: seq<nat>, cells: nat, k: nat)
    requires Interpolated(norm, was, count, cells) && k <= |norm|
    ensures NoDrift(Cum(norm, k) - Distributed(was, k), Rest(was, count, k), Rest(was, count, |was|), cells)
  {}

  lemma DriftStep(g: int, share: int, part: nat, c: nat, rest: nat, cells: nat)
    requires NoDrift(g, part, rest, cells) && NoDrift(g + share, part + c, rest, cells)
    ensures 2 * (share * rest) < 2 * (c * cells) + 3 * rest && 2 * (c * cells) < 2 * (share * rest) + 3 * rest
  {
    assert (part + c) * cells == part * cells + c * cells;
    assert (g + share) * rest == g * rest + share * rest;
    assert (2 * g + 1) * rest == 2 * (g * rest) + rest;
    assert (2 * (g + share) + 1) * rest == 2 * ((g + share) * rest) + rest;
  }

  /** There is always a cell left to hand out. */
  lemma SomeLeft(norm: seq<int>, count: seq<nat>, total: nat, tableLog: nat, lowProbCount: int)
    requires Histogram(count, total, tableLog) && |norm| == |count|
    requires Shared(norm, count, |count|, Shr(total, tableLog), lowProbCount)
    ensures Distributed(norm, |count|) < Pow2(tableLog)
  {
    RoomForAll(count, total, tableLog);
    PartsBound(norm, count, |count|, Shr(total, tableLog), lowProbCount);
  }

  /** Without anything left to assign, every symbol that occurs has one cell. */
  lemma {:induction false} AllOnes(norm: seq<int>, count: seq<nat>, k: nat, lowThreshold: nat, lowProbCount: int)
    requires Shared(norm, count, k, lowThreshold, lowProbCount) && forall s :: 0 <= s < k ==> norm[s] != NOT_YET_ASSIGNED
    ensures Cum(norm, k) == Distributed(norm, k)
  {
    if k > 0 { AllOnes(norm, count, k - 1, lowThreshold, lowProbCount); }
  }

  lemma {:induction false} RestMember(norm: seq<int>, count: seq<nat>, k: nat, s: nat)
    requires s < k <= |norm| && k <= |count| && norm[s] == NOT_YET_ASSIGNED
    ensures Rest(norm, count, k) >= count[s] && Distributed(norm, k) < k
  {
    if s < k - 1 { RestMember(norm, count, k - 1, s); }
  }

  lemma {:induction false} ZeroMember(norm: seq<int>, k: nat, s: nat)
    requires s < k <= |norm| && norm[s] == 0
    ensures Distributed(norm, k) < k
  {
    if s < k - 1 { ZeroMember(norm, k - 1, s); }
  }

  /** The symbols that have no cell yet occur more than `low` times. */
  ghost predicate Above(norm: seq<int>, count: seq<nat>, k: nat, low: nat)
    requires k <= |norm| && k <= |count|
  {
    forall s :: 0 <= s < k && norm[s] == NOT_YET_ASSIGNED ==> count[s] > low
  }

  /** Each of them occurs often enough for a cell of its own when `cells` are handed out
      in proportion. */
  ghost predicate Deserving(norm: seq<int>, count: seq<nat>, rest: nat, cells: nat)
    requires |norm| == |count|
  {
    forall s :: 0 <= s < |count| && norm[s] == NOT_YET_ASSIGNED ==> count[s] * cells >= rest
  }

  /** The rare symbols get one cell each. */
  method AssignRare(norm: array<int>, tableLog: nat, count: seq<nat>, total0: nat, lowProbCount: int)
    returns (distributed: nat, total: nat)
    requires Histogram(count, total0, tableLog) && norm.Length == |count| && (lowProbCount == 1 || lowProbCount == -1)
    modifies norm
    ensures Shared(norm[..], count, |count|, Shr(total0, tableLog), lowProbCount)
    ensures distributed == Distributed(norm[..], |count|) && total == Rest(norm[..], count, |count|)
    ensures Above(norm[..], count, |count|, Shr(total0 * 3, tableLog + 1))
    ensures FirstPass(norm[..], |count|, count, total0, Pow2(tableLog), lowProbCount)
  {
    hide Shr, Pow2, Early;
    var lowThreshold := Shr(total0, tableLog);
    var lowOne := Shr(total0 * 3, tableLog + 1);
    distributed := 0;
    var left: int := total0;
    for s := 0 to |count|
      invariant Shared(norm[..], count, s, lowThreshold, lowProbCount) && Above(norm[..], count, s, lowOne)
      invariant distributed == Distributed(norm[..], s)
      invariant left == total0 - SumOf(count, s) + Rest(norm[..], count, s)
      invariant FirstPass(norm[..], s, count, total0, Pow2(tableLog), lowProbCount)
    {
      ghost var before := norm[..];
      EarlyIs(count[s], total0, tableLog, lowProbCount);
      if count[s] == 0 {
        norm[s] := 0;
      } else if count[s] <= lowThreshold {
        norm[s] := lowProbCount;
        distributed := distributed + 1;
        left := left - count[s];
      } else if count[s] <= lowOne {
        norm[s] := 1;
        distributed := distributed + 1;
        left := left - count[s];
      } else {
        norm[s] := NOT_YET_ASSIGNED;
      }
      SameParts(before, norm[..], count, s);
    }
    total := left;
  }

  /** Symbols without a cell that occur no more than `low` times have got one. */
  ghost predicate Assigned(norm: seq<int>, was: seq<int>, count: seq<nat>, k: nat, low: nat)
  {
    && k <= |norm| == |was| == |count|
    && forall s :: 0 <= s < k ==> norm[s] == if was[s] == NOT_YET_ASSIGNED && count[s] <= low then 1 else was[s]
  }

  /** With a coarser limit, once. */
  method AssignMore(norm: array<int>, count: seq<nat>, distributed0: nat, total0: nat, lowOne: nat,
                    ghost lowThreshold: nat, ghost lowProbCount: int)
    returns (distributed: nat, total: nat)
    requires norm.Length == |count| && Shared(norm[..], count, |count|, lowThreshold, lowProbCount)
    requires distributed0 == Distributed(norm[..], |count|) && total0 == Rest(norm[..], count, |count|)
    modifies norm
    ensures Shared(norm[..], count, |count|, lowThreshold, lowProbCount) && Above(norm[..], count, |count|, lowOne)
    ensures distributed == Distributed(norm[..], |count|) && total == Rest(norm[..], count, |count|)
    ensures distributed >= distributed0 && total <= total0
    ensures Assigned(norm[..], old(norm[..]), count, |count|, lowOne)
  {
    ghost var was := norm[..];
    distributed := distributed0;
    var left: int := total0;
    for s := 0 to |count|
      invariant Shared(norm[..], count, |count|, lowThreshold, lowProbCount) && Above(norm[..], count, s, lowOne)
      invariant norm[s..] == was[s..] && distributed >= distributed0 && left <= total0
      invariant distributed - Distributed(norm[..], s) == distributed0 - Distributed(was, s)
      invariant left - Rest(norm[..], count, s) == total0 - Rest(was, count, s)
      invariant Assigned(norm[..], was, count, s, lowOne)
    {
      ghost var before := norm[..];
      assert norm[s] == norm[s..][0] == was[s];
      if norm[s] == NOT_YET_ASSIGNED && count[s] <= lowOne {
        norm[s] := 1;
        distributed := distributed + 1;
        left := left - count[s];
      }
      SameParts(before, norm[..], count, s);
    }
    assert norm[..] == norm[..norm.Length];
    total := left;
  }

  lemma ToMostFrequent(norm: seq<int>, was: seq<int>, count: seq<nat>, cells: nat, m: nat)
    requires |norm| == |was| == |count| == Distributed(was, |was|) && MostFrequent(count, m)
    requires norm == was[m := was[m] + cells]
    ensures HandedOut(norm, was, count, cells)
  {}

  lemma AllDealt(norm: seq<int>, was: seq<int>, count: seq<nat>, cells: nat, turns: nat, stop: nat)
    requires |norm| == |was| == |count| > Distributed(was, |was|) && Rest(was, count, |was|) == 0
    requires Dealt(norm, was, turns, stop)
    ensures HandedOut(norm, was, count, cells)
  {}

  /** All remaining cells go to the most frequent symbol. */
  method GiveToMax(norm: array<int>, tableLog: nat, count: seq<nat>, toDistribute: nat, ghost total: nat, ghost lowProbCount: int)
    requires Histogram(count, total, tableLog) && norm.Length == |count|
    requires Shared(norm[..], count, |count|, Shr(total, tableLog), lowProbCount)
    requires Distributed(norm[..], |count|) == |count| && toDistribute == Pow2(tableLog) - |count|
    modifies norm
    ensures Normalised(norm[..], count, tableLog, total, lowProbCount == -1)
    ensures HandedOut(norm[..], old(norm[..]), count, toDistribute)
  {
    hide Shr, Pow2, Distributed, Rest, SumOf, MinTableLog, HandedOut;
    var maxV, maxC := 0, 0;
    for s := 0 to |count|
      invariant 0 <= maxV < |count| && (maxC == 0 || maxC == count[maxV]) && forall i :: 0 <= i < s ==> count[i] <= maxC
      invariant maxC == 0 ==> maxV == 0
      invariant forall i :: 0 <= i < maxV ==> count[i] < maxC
    {
      if count[s] > maxC { maxV, maxC := s, count[s]; }
    }
    ghost var was := norm[..];
    forall s | 0 <= s < |count| ensures was[s] != NOT_YET_ASSIGNED && was[s] != 0 {
      if was[s] == NOT_YET_ASSIGNED { RestMember(was, count, |count|, s); }
      if was[s] == 0 { ZeroMember(was, |count|, s); }
    }
    AllOnes(was, count, |count|, Shr(total, tableLog), lowProbCount);
    ghost var common := SomeCommon(count, total, tableLog);
    CumUpdate(was, |count|, maxV, was[maxV] + toDistribute);
    norm[maxV] := norm[maxV] + toDistribute;
    assert norm[..] == was[maxV := was[maxV] + toDistribute];
    ToMostFrequent(norm[..], was, count, toDistribute, maxV);
  }

  /** All remaining cells go round the symbols with a positive share. */
  method GiveAround(norm: array<int>, tableLog: nat, count: seq<nat>, toDistribute0: nat, ghost total: nat, ghost lowProbCount: int)
    requires Histogram(count, total, tableLog) && norm.Length == |count|
    requires Shared(norm[..], count, |count|, Shr(total, tableLog), lowProbCount)
    requires Rest(norm[..], count, |count|) == 0 && toDistribute0 == Pow2(tableLog) - Distributed(norm[..], |count|)
    requires Distributed(norm[..], |count|) < |count|
    modifies norm
    ensures Normalised(norm[..], count, tableLog, total, lowProbCount == -1)
    ensures HandedOut(norm[..], old(norm[..]), count, toDistribute0)
  {
    hide Shr, Pow2, Distributed, Rest, SumOf, MinTableLog, HandedOut;
    ghost var was := norm[..];
    forall s | 0 <= s < |count| ensures was[s] != NOT_YET_ASSIGNED {
      if was[s] == NOT_YET_ASSIGNED { RestMember(was, count, |count|, s); }
    }
    AllOnes(was, count, |count|, Shr(total, tableLog), lowProbCount);
    ghost var p := SomeCommon(count, total, tableLog);
    var s, toDistribute := 0, toDistribute0;
    ghost var turns: nat := 0;
    while toDistribute > 0
      invariant 0 <= s < |count| && Dealt(norm[..], was, turns, s)
      invariant Cum(norm[..], |count|) + toDistribute == Pow2(tableLog)
      decreases toDistribute, if s <= p then p - s else p - s + |count|
    {
      if norm[s] > 0 {
        ghost var before := norm[..];
        CumUpdate(before, |count|, s, norm[s] + 1);
        toDistribute := toDistribute - 1;
        norm[s] := norm[s] + 1;
        assert norm[..] == before[s := before[s] + 1];
      }
      if s + 1 == |count| { turns := turns + 1; }
      s := NextSymbol(s, |count|);
    }
    AllDealt(norm[..], was, count, toDistribute0, turns, s);
  }

  /** `(s + 1) % n`. */
  function NextSymbol(s: nat, n: nat): (t: nat)
    requires s < n
    ensures t == if s + 1 == n then 0 else s + 1
  {
    (s + 1) % n
  }

  // ----- interpolation -----

  /** The scaled shares end exactly at the number of cells: rounding loses less than
      half a step, which `mid` makes up for. */
  lemma EndsExactly(total: nat, cells: nat, v: nat, rStep: nat)
    requires 0 < total < 0x8000_0000 && 32 <= v
    requires rStep == (Shl(cells, v) + Pow2(v - 1) - 1) / total
    ensures Shr(Pow2(v - 1) - 1 + total * rStep, v) == cells
    ensures Shr(Pow2(v - 1) - 1, v) == 0
  {
    hide Shl, Shr, Pow2, Low;
    var mid, whole := Pow2(v - 1) - 1, Shl(cells, v);
    Pow2Wide();
    Pow2Mono(31, v - 1);
    Pow2Next(v - 1);
    var end := mid + total * rStep;
    assert whole + mid == total * rStep + (whole + mid) % total;
    var extra := end - whole;
    assert 0 <= extra < Pow2(v);
    Join(extra, cells, v);
    LowSmall(mid, v);
  }

  lemma PointStep(mid: nat, rest: nat, c: nat, rStep: nat)
    ensures Point(mid, rest + c, rStep) == Point(mid, rest, rStep) + c * rStep
  {}

  /** A symbol that occurs often enough gets at least one cell. */
  lemma WholeStep(c: nat, rest: nat, cells: nat, v: nat, rStep: nat, start: nat)
    requires 0 < rest < 0x8000_0000 && 32 <= v && c * cells >= rest
    requires rStep == (Shl(cells, v) + Pow2(v - 1) - 1) / rest
    ensures Shr(start + c * rStep, v) >= Shr(start, v) + 1
  {
    hide Shl, Shr, Pow2, Low;
    var whole := Shl(cells, v);
    Pow2Wide();
    Pow2Mono(31, v - 1);
    assert whole + Pow2(v - 1) - 1 == rest * rStep + (whole + Pow2(v - 1) - 1) % rest;
    assert rest * rStep >= whole;
    ShlIsMul(cells, v);
    FairStep(c, rest, cells, Pow2(v), rStep);
    ShlOne(v);
    Split(start, v);
    ShlAdd(Shr(start, v), 1, v);
    ShrVersusShl(start + c * rStep, Shr(start, v) + 1, v);
  }

  lemma FairStep(c: nat, rest: nat, cells: nat, p: nat, rStep: nat)
    requires rest > 0 && c * cells >= rest && rest * rStep >= cells * p
    ensures c * rStep >= p
  {
    MulMono(rest, c * cells, p);
    MulMono(cells * p, rest * rStep, c);
    assert c * (rest * rStep) == (c * rStep) * rest;
    assert c * (cells * p) == (c * cells) * p;
    if c * rStep < p { MulMono(c * rStep + 1, p, rest); }
  }

  /** One symbol of the interpolation loop. */
  lemma ShareStep(was: seq<int>, count: seq<nat>, s: nat, low: nat, lowProbCount: int, n: int)
    requires s < |was| == |count| && Shared(was, count, |count|, low, lowProbCount)
    requires if was[s] == NOT_YET_ASSIGNED then n >= 1 else n == was[s]
    ensures Fair(n, count[s], low, lowProbCount == -1)
    ensures Distributed(was, s + 1) == Distributed(was, s) + (if was[s] == NOT_YET_ASSIGNED then 0 else Weight(n))
    ensures Rest(was, count, s + 1) == Rest(was, count, s) + (if was[s] == NOT_YET_ASSIGNED then count[s] else 0)
  {
    assert SecondShare(was[s], count[s], low, lowProbCount);
  }

  /** After each of the first `k` symbols the cells given are the whole ones up to its
      point on the scale. */
  ghost predicate AlongScale(norm: seq<int>, was: seq<int>, count: seq<nat>, k: nat, mid: nat, rStep: nat, v: nat)
  {
    && k <= |norm| == |was| == |count|
    && (forall s :: 0 <= s < k && was[s] != NOT_YET_ASSIGNED ==> norm[s] == was[s])
    && forall j :: 0 <= j <= k ==> Cum(norm, j) == Distributed(was, j) + Shr(Point(mid, Rest(was, count, j), rStep), v)
  }

  lemma AlongStep(a: seq<int>, b: seq<int>, was: seq<int>, count: seq<nat>, k: nat, mid: nat, rStep: nat, v: nat)
    requires AlongScale(a, was, count, k, mid, rStep, v) && k < |a| == |b| && forall i :: 0 <= i < k ==> b[i] == a[i]
    requires was[k] != NOT_YET_ASSIGNED ==> b[k] == was[k]
    requires Cum(b, k + 1) == Distributed(was, k + 1) + Shr(Point(mid, Rest(was, count, k + 1), rStep), v)
    ensures AlongScale(b, was, count, k + 1, mid, rStep, v)
  {
    hide Shr, Point, Cum, Distributed, Rest;
    forall j | 0 <= j <= k ensures Cum(b, j) == Cum(a, j) { CumSame(a, b, j); }
  }

  lemma {:induction false} RestUpTo(was: seq<int>, count: seq<nat>, k: nat, n: nat)
    requires k <= n <= |was| == |count|
    ensures Rest(was, count, k) <= Rest(was, count, n)
    decreases n
  {
    if k < n { RestUpTo(was, count, k, n - 1); }
  }

  lemma AlongWhole(norm: seq<int>, was: seq<int>, count: seq<nat>, cells: nat, v: nat, rStep: nat)
    requires |norm| == |was| == |count| && 32 <= v && 0 < Rest(was, count, |was|) < 0x8000_0000
    requires rStep == (Shl(cells, v) + Pow2(v - 1) - 1) / Rest(was, count, |was|)
    requires AlongScale(norm, was, count, |norm|, Pow2(v - 1) - 1, rStep, v)
    ensures Interpolated(norm, was, count, cells)
  {
    hide Shl, Shr, Pow2, Point, Cum, Distributed, Rest, NoDrift;
    var rest := Rest(was, count, |was|);
    forall k | 0 <= k <= |norm| ensures NoDrift(Cum(norm, k) - Distributed(was, k), Rest(was, count, k), rest, cells) {
      RestUpTo(was, count, k, |was|);
      NearPoint(Rest(was, count, k), rest, cells, v, rStep);
    }
  }

  /** Each remaining symbol gets the cells between two points of the scale. */
  method Interpolate(norm: array<int>, tableLog: nat, count: seq<nat>, rest: nat, toDistribute: nat,
                     ghost total: nat, ghost lowProbCount: int) returns (ok: bool)
    requires Histogram(count, total, tableLog) && norm.Length == |count|
    requires Shared(norm[..], count, |count|, Shr(total, tableLog), lowProbCount)
    requires rest == Rest(norm[..], count, |count|) > 0 && toDistribute == Pow2(tableLog) - Distributed(norm[..], |count|)
    requires Deserving(norm[..], count, rest, toDistribute)
    modifies norm
    ensures ok && Normalised(norm[..], count, tableLog, total, lowProbCount == -1)
    ensures Interpolated(norm[..], old(norm[..]), count, toDistribute)
  {
    hide Shr, Shl, Pow2, Highbit, SumOf, Point, AlongScale, Shared, Distributed, Rest, Fair, Weight, MinTableLog;
    ghost var was := norm[..];
    PartsBound(was, count, |count|, Shr(total, tableLog), lowProbCount);
    var vStepLog := 62 - tableLog;
    var mid := Pow2(vStepLog - 1) - 1;
    var rStep := (Shl(toDistribute, vStepLog) + mid) / rest;
    EndsExactly(rest, toDistribute, vStepLog, rStep);
    Ends(was, count, mid, rest, rStep);
    StartsAlong(was, count, mid, rStep, vStepLog);
    var tmpTotal := mid;
    ok := true;
    for s := 0 to |count|
      invariant norm[s..] == was[s..]
      invariant tmpTotal == Point(mid, Rest(was, count, s), rStep)
      invariant Cum(norm[..], s) == Distributed(was, s) + Shr(tmpTotal, vStepLog)
      invariant AlongScale(norm[..], was, count, s, mid, rStep, vStepLog)
      invariant forall i :: 0 <= i < s ==> Fair(norm[i], count[i], Shr(total, tableLog), lowProbCount == -1)
    {
      ghost var before := norm[..];
      assert norm[s] == norm[s..][0] == was[s];
      if norm[s] == NOT_YET_ASSIGNED {
        var end := tmpTotal + count[s] * rStep;
        PointStep(mid, Rest(was, count, s), count[s], rStep);
        var sStart, sEnd := Shr(tmpTotal, vStepLog), Shr(end, vStepLog);
        WholeStep(count[s], rest, toDistribute, vStepLog, rStep, tmpTotal);
        var weight := sEnd - sStart;
        if weight < 1 { ok := false; break; }
        norm[s] := weight;
        tmpTotal := end;
        WeightOf(weight);
      }
      ShareStep(was, count, s, Shr(total, tableLog), lowProbCount, norm[s]);
      CumExtend(before, norm[..], s);
      AlongStep(before, norm[..], was, count, s, mid, rStep, vStepLog);
    }
    assert norm[..] == norm[..norm.Length];
    AlongWhole(norm[..], was, count, toDistribute, vStepLog, rStep);
  }

  lemma StartsAlong(was: seq<int>, count: seq<nat>, mid: nat, rStep: nat, v: nat)
    requires |was| == |count| && Shr(mid, v) == 0
    ensures AlongScale(was, was, count, 0, mid, rStep, v)
  {}

  lemma WeightOf(n: nat)
    ensures Weight(n) == n
  {}

  lemma Ends(was: seq<int>, count: seq<nat>, mid: nat, rest: nat, rStep: nat)
    requires |was| == |count|
    ensures Rest(was, count, 0) == 0 && Distributed(was, 0) == 0 && Cum(was, 0) == 0
    ensures Point(mid, 0, rStep) == mid && Point(mid, rest, rStep) == mid + rest * rStep
  {}

  // ----- why no share is rounded to zero -----

  lemma FirstPassFair(norm: seq<int>, count: seq<nat>, rest: nat, cells: nat, lowOne: nat)
    requires |norm| == |count| && cells > 0 && rest / cells <= lowOne && Above(norm, count, |count|, lowOne)
    ensures Deserving(norm, count, rest, cells)
  {
    forall s | 0 <= s < |count| && norm[s] == NOT_YET_ASSIGNED ensures count[s] * cells >= rest {
      MulMono(rest / cells + 1, count[s], cells);
      assert rest == (rest / cells) * cells + rest % cells;
    }
  }

  /** When the average of the remaining symbols is above the limit, more than a third of
      the cells went to rare symbols, and then half the table is more than the alphabet. */
  lemma ManyRare(count: seq<nat>, total0: nat, tableLog: nat, distributed: nat, rest: nat)
    requires Histogram(count, total0, tableLog) && distributed < Pow2(tableLog) && distributed + rest <= total0
    requires rest / (Pow2(tableLog) - distributed) > Shr(total0 * 3, tableLog + 1)
    ensures 3 * distributed > Pow2(tableLog) && 2 * |count| <= Pow2(tableLog)
  {
    hide Shr, Shl, Pow2, SumOf, MinTableLog;
    var cells: nat, low: nat := Pow2(tableLog) - distributed, Shr(total0 * 3, tableLog + 1);
    var q := rest / cells;
    assert rest == q * cells + rest % cells;
    RoomForAll(count, total0, tableLog);
    MulMono(low + 1, q, cells);
    assert (low + 1) * cells <= rest;
    if total0 < Pow2(tableLog) {
      MulMono(1, low + 1, cells);
    }
    ShrVersusShl(total0 * 3, low + 1, tableLog + 1);
    ShlIsMul(low + 1, tableLog + 1);
    Pow2Next(tableLog);
    assert 3 * total0 < (low + 1) * (2 * Pow2(tableLog));
    ThirdGone(total0, low + 1, Pow2(tableLog), cells, rest);
  }

  lemma ThirdGone(total: nat, low: nat, n: nat, cells: nat, rest: nat)
    requires 3 * total < low * (2 * n) && low * cells <= rest <= total && cells > 0
    ensures 3 * cells < 2 * n
  {
    assert low * (3 * cells) == 3 * (low * cells);
    if 3 * cells >= 2 * n { MulMono(2 * n, 3 * cells, low); }
  }

  lemma SecondPassFair(norm: seq<int>, count: seq<nat>, rest0: nat, cells0: nat, rest: nat, cells: nat, low: nat)
    requires |norm| == |count| && cells0 > 0 && rest <= rest0 && 3 * cells >= 2 * cells0
    requires rest0 * 3 < (low + 1) * (cells0 * 2) && Above(norm, count, |count|, low)
    ensures Deserving(norm, count, rest, cells)
  {
    var d := cells0 * 2;
    forall s | 0 <= s < |count| && norm[s] == NOT_YET_ASSIGNED ensures count[s] * cells >= rest {
      MulMono(low + 1, count[s], d);
      MulMono(d, 3 * cells, count[s]);
      assert count[s] * (3 * cells) == 3 * (count[s] * cells);
    }
  }

  lemma Quotient(a: nat, b: nat)
    requires b > 0
    ensures a / b >= 0 && a < (a / b + 1) * b
  {
    assert a == (a / b) * b + a % b;
  }

  lemma AllInterpolated(norm: seq<int>, was: seq<int>, count: seq<nat>, cells: nat)
    requires Interpolated(norm, was, count, cells)
    requires |was| > Distributed(was, |was|) && Rest(was, count, |was|) > 0
    ensures HandedOut(norm, was, count, cells)
  {}

  lemma SecondPassIs(norm: seq<int>, was: seq<int>, count: seq<nat>, total: nat, tableLog: nat)
    requires |norm| == |was| == |count| && Distributed(was, |was|) < Pow2(tableLog)
    requires var left := Pow2(tableLog) - Distributed(was, |was|); var rest := Rest(was, count, |was|);
      if rest / left > Shr(total * 3, tableLog + 1) then Assigned(norm, was, count, |count|, rest * 3 / (left * 2))
      else norm == was
    ensures SecondPass(norm, was, count, total, Pow2(tableLog))
  {
    hide Shr, Pow2, Distributed, Rest, Scarce, Early;
    var left := Pow2(tableLog) - Distributed(was, |was|);
    var rest := Rest(was, count, |was|);
    EarlyIs(rest / left, total, tableLog, 1);
    forall s | 0 <= s < |count| ensures count[s] <= rest * 3 / (left * 2) <==> Scarce(count[s], rest, left) {
      QuotientScarce(count[s], rest, left);
    }
  }

  lemma BySecondMethod(norm: seq<int>, first: seq<int>, early: seq<int>, count: seq<nat>, total: nat, cells: nat, lowProbCount: int)
    requires FirstPass(first, |count|, count, total, cells, lowProbCount) && SecondPass(early, first, count, total, cells)
    requires Distributed(early, |early|) <= cells && HandedOut(norm, early, count, cells - Distributed(early, |early|))
    ensures SecondMethod(norm, count, total, cells, lowProbCount)
  {}

  /** `FSE_normalizeM2`. */
  method NormalizeM2(norm: array<int>, tableLog: nat, count: seq<nat>, total0: nat, lowProbCount: int) returns (ok: bool)
    requires Histogram(count, total0, tableLog) && norm.Length == |count| && (lowProbCount == 1 || lowProbCount == -1)
    modifies norm
    ensures ok && Normalised(norm[..], count, tableLog, total0, lowProbCount == -1)
    ensures SecondMethod(norm[..], count, total0, Pow2(tableLog), lowProbCount)
  {
    hide Shr, Shl, Pow2, Distributed, Rest, SumOf, MinTableLog, FirstPass, SecondPass, HandedOut, Interpolated,
         SecondMethod;
    var distributed, total := AssignRare(norm, tableLog, count, total0, lowProbCount);
    ghost var first := norm[..];
    SomeLeft(norm[..], count, total0, tableLog, lowProbCount);
    var lowOne := Shr(total0 * 3, tableLog + 1);
    var toDistribute := Pow2(tableLog) - distributed;
    PartsBound(norm[..], count, |count|, Shr(total0, tableLog), lowProbCount);
    if total / toDistribute > lowOne {
      ghost var cells, rest := toDistribute, total;
      ManyRare(count, total0, tableLog, distributed, total);
      Quotient(total * 3, toDistribute * 2);
      lowOne := total * 3 / (toDistribute * 2);
      distributed, total := AssignMore(norm, count, distributed, total, lowOne, Shr(total0, tableLog), lowProbCount);
      SomeLeft(norm[..], count, total0, tableLog, lowProbCount);
      toDistribute := Pow2(tableLog) - distributed;
      SecondPassFair(norm[..], count, rest, cells, total, toDistribute, lowOne);
    } else {
      FirstPassFair(norm[..], count, total, toDistribute, lowOne);
    }
    ghost var early := norm[..];
    SecondPassIs(early, first, count, total0, tableLog);
    if distributed == |count| {
      GiveToMax(norm, tableLog, count, toDistribute, total0, lowProbCount);
      BySecondMethod(norm[..], first, early, count, total0, Pow2(tableLog), lowProbCount);
      return true;
    }
    if total == 0 {
      GiveAround(norm, tableLog, count, toDistribute, total0, lowProbCount);
      BySecondMethod(norm[..], first, early, count, total0, Pow2(tableLog), lowProbCount);
      return true;
    }
    ok := Interpolate(norm, tableLog, count, total, toDistribute, total0, lowProbCount);
    AllInterpolated(norm[..], early, count, toDistribute);
    BySecondMethod(norm[..], first, early, count, total0, Pow2(tableLog), lowProbCount);
  }

  /** Which method makes the cells.  The direct scaling stands if correcting its largest
      share by the cells owed or left costs less than half of it; then no other changes. */
  ghost predicate Apportioned(norm: seq<int>, count: seq<nat>, total: nat, cells: nat, lowProbCount: int)
  {
    exists scaled: seq<int>, largest: nat ::
      && DirectShares(scaled, largest, count, total, cells, lowProbCount)
      && var left := cells - Cum(scaled, |scaled|);
        if -left >= scaled[largest] / 2 then SecondMethod(norm, count, total, cells, lowProbCount)
        else norm == scaled[largest := scaled[largest] + left]
  }

  lemma ByEither(norm: seq<int>, scaled: seq<int>, largest: nat, count: seq<nat>, total: nat, cells: nat, lowProbCount: int)
    requires DirectShares(scaled, largest, count, total, cells, lowProbCount)
    requires var left := cells - Cum(scaled, |scaled|);
      if -left >= scaled[largest] / 2 then SecondMethod(norm, count, total, cells, lowProbCount)
      else norm == scaled[largest := scaled[largest] + left]
    ensures Apportioned(norm, count, total, cells, lowProbCount)
  {
    hide SecondMethod, Cum, DirectShares;
  }

  lemma CorrectedNormal(norm: seq<int>, scaled: seq<int>, largest: nat, count: seq<nat>, tableLog: nat, total: nat, lowProbCount: int)
    requires DirectShares(scaled, largest, count, total, Pow2(tableLog), lowProbCount)
    requires lowProbCount == 1 || lowProbCount == -1
    requires var left := Pow2(tableLog) - Cum(scaled, |scaled|);
      -left < scaled[largest] / 2 && norm == scaled[largest := scaled[largest] + left]
    ensures Normalised(norm, count, tableLog, total, lowProbCount == -1)
  {
    hide Shr, Pow2, Cum, Rare;
    var left := Pow2(tableLog) - Cum(scaled, |scaled|);
    CumUpdate(scaled, |scaled|, largest, scaled[largest] + left);
    forall s | 0 <= s < |norm| ensures Fair(norm[s], count[s], Shr(total, tableLog), lowProbCount == -1) {
      assert Direct(scaled[s], count[s], total, Pow2(tableLog), lowProbCount);
      Threshold(count[s], total, tableLog);
    }
    Threshold(0, total, tableLog);
  }

  /** `FSE_normalizeCount`: 0 for a single symbol, an error for a table log that does
      not suit, otherwise the table log and a normalised histogram. */
  method NormalizeCount(norm: array<int>, tableLog0: nat, count: seq<nat>, total: nat, useLowProbCount: bool)
    returns (r: Result<nat>)
    requires 2 <= |count| <= MAX_SYMBOL_VALUE + 1 && 1 < total < 0x8000_0000 && SumOf(count, |count|) == total
    requires norm.Length == |count|
    modifies norm
    ensures var tableLog := if tableLog0 == 0 then DEFAULT_TABLELOG else tableLog0;
      if tableLog < MIN_TABLELOG then r == Err(Generic)
      else if tableLog > MAX_TABLELOG then r == Err(TableLogTooLarge)
      else if tableLog < MinTableLog(total, |count| - 1) then r == Err(Generic)
      else if exists s :: 0 <= s < |count| && count[s] == total then r == Ok(0)
      else && r == Ok(tableLog) && Normalised(norm[..], count, tableLog, total, useLowProbCount)
           && Apportioned(norm[..], count, total, Pow2(tableLog), if useLowProbCount then -1 else 1)
  {
    hide Shr, Pow2, SumOf, MinTableLog, Normalised, Cum, Apportioned, SecondMethod;
    var tableLog := if tableLog0 == 0 then DEFAULT_TABLELOG else tableLog0;
    if tableLog < MIN_TABLELOG { return Err(Generic); }
    if tableLog > MAX_TABLELOG { return Err(TableLogTooLarge); }
    if tableLog < MinTableLog(total, |count| - 1) { return Err(Generic); }
    var lowProbCount := if useLowProbCount then -1 else 1;
    var rle, stillToDistribute, largest := ScaleAll(norm, tableLog, count, total, lowProbCount);
    if rle { return Ok(0); }
    ghost var scaled := norm[..];
    if -stillToDistribute >= norm[largest] / 2 {
      var ok := NormalizeM2(norm, tableLog, count, total, lowProbCount);
      if !ok { return Err(Generic); }
    } else {
      norm[largest] := norm[largest] + stillToDistribute;
      CorrectedNormal(norm[..], scaled, largest, count, tableLog, total, lowProbCount);
    }
    ByEither(norm[..], scaled, largest, count, total, Pow2(tableLog), lowProbCount);
    return Ok(tableLog);
  }

  /** What normalisation leaves is what the table builders and the header writer ask
      for. */
  lemma NormalisedIsValid(norm: seq<int>, count: seq<nat>, tableLog: nat, total: nat, useLowProb: bool)
    requires Histogram(count, total, tableLog) && Normalised(norm, count, tableLog, total, useLowProb)
    ensures ValidNorm(norm, tableLog)
  {
    assert forall s :: 0 <= s < |norm| ==> Fair(norm[s], count[s], Shr(total, tableLog), useLowProb);
  }
}
