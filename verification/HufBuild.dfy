/** `HUF_buildCTableFromTree`, and the way from sorted counts to a table of codes. */
module HufBuild {
  import opened Bits
  import opened Counting
  import opened Kraft
  import opened HufCodes
  import opened Results
  import HufSort
  import HufHeight
  import HufTree
  import HufOptimal

  const HUF_TABLELOG_DEFAULT := 11

  /** The lengths of the first `k` nodes, by symbol. */
  function Scattered(symbols: seq<nat>, bits: seq<nat>, k: nat, size: nat): (r: seq<nat>)
    requires k <= |symbols| && k <= |bits| && forall i :: 0 <= i < k ==> symbols[i] < size
    ensures |r| == size
  {
    if k == 0 then seq(size, _ => 0) else Scattered(symbols, bits, k - 1, size)[symbols[k - 1] := bits[k - 1]]
  }

  lemma {:induction false} ScatteredAt(symbols: seq<nat>, bits: seq<nat>, k: nat, size: nat, s: nat)
    requires k <= size <= |bits| && HufSort.Permutes(symbols, size) && s < size
    ensures Rank(symbols, k, s) == 0 ==> Scattered(symbols, bits, k, size)[s] == 0
    ensures forall i :: 0 <= i < k && symbols[i] == s ==> Scattered(symbols, bits, k, size)[s] == bits[i]
    decreases k
  {
    if k > 0 {
      ScatteredAt(symbols, bits, k - 1, size, s);
      if symbols[k - 1] == s {
        RankMono(symbols, k, size, s);
        RankNone(symbols, k - 1, s);
      }
    }
  }

  /** Scattering keeps what `Kraft.Sum` and the counts by rank see. */
  lemma {:induction false} ScatteredSums(symbols: seq<nat>, bits: seq<nat>, k: nat, size: nat, unit: nat, b: nat)
    requires k <= size <= |bits| && HufSort.Permutes(symbols, size) && b > 0
    ensures var nb := Scattered(symbols, bits, k, size);
      && Rank(nb, size, b) == Rank(bits, k, b)
      && Sum(Longer(nb, 0), size, unit) == Sum(Longer(bits, 0), k, unit)
    decreases k
  {
    hide Share;
    if k == 0 {
      var none := seq(size, _ => 0);
      assert forall i :: 0 <= i < size ==> none[i] != b;
      RankNone(none, size, b);
      SumNone(Longer(none, 0), size, unit);
    } else {
      var before, s := Scattered(symbols, bits, k - 1, size), symbols[k - 1];
      ScatteredSums(symbols, bits, k - 1, size, unit, b);
      FreshSymbol(symbols, k - 1, size);
      ScatteredAt(symbols, bits, k - 1, size, s);
      RankUpdate(before, size, b, s, bits[k - 1]);
      var l := Only(bits[k - 1] > 0, bits[k - 1]);
      assert Longer(before[s := bits[k - 1]], 0) == Longer(before, 0)[s := l];
      SumUpdate(Longer(before, 0), size, unit, s, l);
      NoShare(unit);
    }
  }

  lemma FreshSymbol(symbols: seq<nat>, k: nat, size: nat)
    requires HufSort.Permutes(symbols, size) && k < size
    ensures symbols[k] < size && Rank(symbols, k, symbols[k]) == 0
  {
    RankMono(symbols, k, size, symbols[k]);
  }

  /** Zeros after the last symbol in use add nothing. */
  lemma {:induction false} UsedSum(bits: seq<nat>, m: nat, k: nat, unit: nat)
    requires m <= k <= |bits| && (forall i :: 0 <= i < m ==> bits[i] > 0) && forall i :: m <= i < k ==> bits[i] == 0
    ensures Sum(Longer(bits, 0), k, unit) == Sum(bits, m, unit)
    decreases k
  {
    if m < k {
      UsedSum(bits, m, k - 1, unit);
    } else {
      SumSame(Longer(bits, 0), bits, m, unit);
    }
  }

  lemma {:induction false} UsedRank(bits: seq<nat>, m: nat, k: nat, b: nat)
    requires m <= k <= |bits| && b > 0 && forall i :: m <= i < k ==> bits[i] == 0
    ensures Rank(bits, k, b) == Rank(bits, m, b)
    decreases k
  {
    if m < k { UsedRank(bits, m, k - 1, b); }
  }

  /** The lengths of the sorted nodes, scattered to their symbols, are a complete
      code. */
  lemma ScatteredComplete(symbols: seq<nat>, bits: seq<nat>, m: nat, size: nat, unit: nat)
    requires 0 < m <= size <= |bits| && HufSort.Permutes(symbols, size) && HufHeight.CompleteTree(bits[..m], unit)
    requires forall i :: m <= i < size ==> bits[i] == 0
    ensures Complete(Scattered(symbols, bits, size, size), unit)
  {
    hide Scattered, Sum, Pow2;
    var nb := Scattered(symbols, bits, size, size);
    ScatteredSums(symbols, bits, size, size, unit, 1);
    assert forall i :: 0 <= i < m ==> bits[i] == bits[..m][i] <= bits[..m][m - 1];
    UsedSum(bits, m, size, unit);
    SumSame(bits, bits[..m], m, unit);
    forall s | 0 <= s < size ensures nb[s] <= unit {
      ScatteredAt(symbols, bits, size, size, s);
      var i := Position(symbols, size, s);
    }
  }

  lemma Position(symbols: seq<nat>, size: nat, s: nat) returns (i: nat)
    requires HufSort.Permutes(symbols, size) && s < size
    ensures i < size && symbols[i] == s
  {
    i := PositionOfRank(symbols, size, s, 0);
  }

  /** `HUF_buildCTableFromTree`: `ct` gets the canonical codes of the node lengths. */
  method BuildCTableFromTree(ct: array<nat>, byte: array<nat>, nbBits: array<nat>, nonNullRank: nat, maxSymbolValue: nat,
                             maxNbBits: nat) returns (ghost nb: seq<nat>, ghost vals: seq<nat>)
    requires ct != byte && ct != nbBits && maxNbBits <= HUF_TABLELOG_MAX
    requires nonNullRank <= maxSymbolValue && ct.Length == maxSymbolValue + 1 <= nbBits.Length
    requires HufSort.Permutes(byte[..], ct.Length) && HufHeight.CompleteTree(nbBits[..nonNullRank + 1], maxNbBits)
    requires forall i :: nonNullRank < i <= maxSymbolValue ==> nbBits[i] == 0
    modifies ct
    ensures |nb| == ct.Length && forall i :: 0 <= i <= maxSymbolValue ==> byte[i] < |nb| && nb[byte[i]] == nbBits[i]
    ensures Complete(nb, maxNbBits) && Canonical(nb, maxNbBits, vals) && IsTable(ct[..], nb, vals)
    ensures forall s :: 0 <= s < |nb| && nb[s] > 0 ==> vals[s] < Pow2(nb[s])
  {
    hide Scattered, Sum, Pow2, Rank, Complete, Canonical, IsTable;
    ghost var bits, symbols := nbBits[..], byte[..];
    ghost var m, size := nonNullRank + 1, maxSymbolValue + 1;
    nb := Scattered(symbols, bits, size, size);
    var nbPerRank := new nat[HUF_TABLELOG_MAX + 1](_ => 0);
    RankStart(bits);
    for n := 0 to nonNullRank + 1
      invariant forall b :: 0 <= b < nbPerRank.Length ==> nbPerRank[b] == Rank(bits, n, b)
    {
      assert bits[n] == bits[..m][n] <= bits[..m][m - 1];
      nbPerRank[nbBits[n]] := nbPerRank[nbBits[n]] + 1;
      RankNext(bits, n);
    }
    ScatteredComplete(symbols, bits, m, size, maxNbBits);
    forall b: nat | 1 <= b <= maxNbBits ensures nbPerRank[b] == Rank(nb, size, b) {
      ScatteredSums(symbols, bits, size, size, maxNbBits, b);
      UsedRank(bits, m, size, b);
    }
    var valPerRank := StartingValues(nbPerRank, maxNbBits, nb);
    ghost var first := valPerRank[..];
    for n := 0 to ct.Length
      invariant valPerRank[..] == first && forall i :: 0 <= i < n ==> ct[byte[i]] == nbBits[i]
    {
      FreshSymbol(symbols, n, size);
      RankNone(symbols, n, symbols[n]);
      ct[byte[n]] := nbBits[n];
    }
    forall s | 0 <= s < size ensures ct[s] == nb[s] {
      var i := Position(symbols, size, s);
      ScatteredAt(symbols, bits, size, size, s);
    }
    forall i | 0 <= i < size ensures nb[byte[i]] == nbBits[i] {
      FreshSymbol(symbols, i, size);
      ScatteredAt(symbols, bits, size, size, symbols[i]);
    }
    vals := AssignValues(ct, valPerRank, maxNbBits, nb);
  }

  /** The depth up to which the limiter works: any for a limit that leaves the tree alone,
      otherwise what its 32-bit cost allows. */
  function Workable(target: nat): nat
  {
    if target > HUF_TABLELOG_MAX then target else if target + 23 > 31 then target + 23 else 31
  }

  /** No tree of so many occurrences is deeper than that, nor taken for a node not made. */
  ghost predicate Manageable(total: nat, target: nat)
  {
    total < HufTree.UNMADE && total < HufTree.Fib(Workable(target) + 3)
  }

  /** A block of at most 128 KB always is. */
  lemma BlockManageable(total: nat, target: nat)
    requires total <= HufTree.BLOCKSIZE_MAX && (target <= HUF_TABLELOG_MAX || target >= 24)
    ensures Manageable(total, target)
  {
    hide HufTree.Fib;
    HufTree.FibValue();
    HufTree.FibMono(27, Workable(target) + 3);
  }

  /** Lengths before the limit: in order, and of no longer a message than any prefix code's. */
  ghost predicate Unlimited(free: seq<nat>, counts: seq<nat>)
  {
    && 0 < |free| == |counts| && HufOptimal.Best(counts, free)
    && forall i :: 0 <= i < |free| ==> free[i] <= free[|free| - 1]
  }

  /** `HUF_buildCTable_wksp` after the sort: at least two symbols in use.  The table holds
      a complete prefix code with no word longer than the limit; `free` are the lengths
      before the limit, and these are kept if they respect it. */
  method BuildSorted(ct: array<nat>, count: array<nat>, byte: array<nat>, parent: array<nat>, nbBits: array<nat>,
                     maxSymbolValue: nat, maxNbBits: nat)
    returns (r: Result<nat>, ghost used: nat, ghost nb: seq<nat>, ghost vals: seq<nat>, ghost free: seq<nat>)
    requires ct != count && ct != byte && ct != parent && ct != nbBits && count != byte && count != parent
    requires count != nbBits && byte != parent && byte != nbBits && parent != nbBits
    requires count.Length == HufTree.NODES + 1 && parent.Length == nbBits.Length == HufTree.NODES
    requires 0 < maxSymbolValue < HufTree.STARTNODE && ct.Length == maxSymbolValue + 1
    requires HufTree.Falling(count[1..], maxSymbolValue + 1) && HufSort.Permutes(byte[..], maxSymbolValue + 1) && count[2] > 0
    requires Manageable(HufTree.Total(count[1..][..maxSymbolValue + 1]), Target(maxNbBits))
    requires forall i :: 0 <= i <= maxSymbolValue ==> nbBits[i] == 0
    requires forall i :: Pow2(Target(maxNbBits)) < i <= maxSymbolValue + 1 ==> count[i] == 0
    modifies ct, count, parent, nbBits
    ensures used <= ct.Length && count[1..][..maxSymbolValue + 1] == old(count[1..][..maxSymbolValue + 1])
    ensures forall i :: 0 < i <= ct.Length ==> (count[i] > 0 <==> i <= used)
    ensures |free| == used > 0 && Unlimited(free, count[1..used + 1])
    ensures var tableLog := Limited(free, Target(maxNbBits));
            r == if tableLog > HUF_TABLELOG_MAX then Err(Generic) else Ok(tableLog)
    ensures r.Ok? ==>
      && |nb| == ct.Length && Complete(nb, r.value) && Canonical(nb, r.value, vals) && IsTable(ct[..], nb, vals)
      && (forall s :: 0 <= s < |nb| && nb[s] > 0 ==> vals[s] < Pow2(nb[s]))
      && (forall i :: 0 <= i < |nb| ==> byte[i] < |nb| && nb[byte[i]] == nbBits[i] && (nbBits[i] > 0 <==> i < used))
      && (if free[used - 1] <= Target(maxNbBits) then nbBits[..used] == free
          else HufHeight.LimitedBy(free, count[1..used + 1], Target(maxNbBits), nbBits[..used]))
  {
    hide HufHeight.CompleteTree, HufOptimal.Best, HufTree.Total, HufTree.Fib, HufSort.Permutes, Pow2, HufHeight.LimitedBy;
    nb, vals := [], [];
    var target := Target(maxNbBits);
    ghost var was: seq<nat> := count[1..];
    var nonNullRank := HufTree.BuildTree(count, parent, nbBits, maxSymbolValue);
    used := nonNullRank + 1;
    var c: seq<nat> := count[1..];
    free := nbBits[..used];
    HufTree.TotalPrefix(c, used, maxSymbolValue + 1);
    assert c[..used] == count[1..used + 1];
    HufTree.DepthBelow(HufTree.Total(c[..used]), nbBits[nonNullRank], Workable(target));
    assert count[used] == count[1..][..maxSymbolValue + 1][nonNullRank] == was[nonNullRank];
    TreeFacts(free, nbBits[nonNullRank]);
    assert count[used] > 0 && used <= Pow2(target);
    assert free == nbBits[..nonNullRank + 1];
    var tableLog := HufHeight.SetMaxHeight(nbBits, c, nonNullRank, target);
    if tableLog > HUF_TABLELOG_MAX { return Err(Generic), used, nb, vals, free; }
    TreeFacts(nbBits[..used], tableLog);
    nb, vals := BuildCTableFromTree(ct, byte, nbBits, nonNullRank, maxSymbolValue, tableLog);
    r := Ok(tableLog);
  }

  /** The table log of limited lengths. */
  function Limited(free: seq<nat>, target: nat): nat
    requires |free| > 0
  {
    if free[|free| - 1] <= target then free[|free| - 1] else target
  }

  lemma TreeFacts(bits: seq<nat>, largest: nat)
    requires HufHeight.CompleteTree(bits, largest)
    ensures forall i :: 0 <= i < |bits| ==> 0 < bits[i] <= bits[|bits| - 1]
  {}

  // ----- from the histogram -----

  lemma {:induction false} UpperUpdate(xs: seq<nat>, k: nat, q: nat, i: nat, x: nat)
    requires k <= |xs| && i < |xs|
    ensures HufSort.Upper(xs[i := x], k, q) == HufSort.Upper(xs, k, q)
              + (if i < k && x >= q then 1 else 0) - (if i < k && xs[i] >= q then 1 else 0)
    decreases k
  {
    if k > 0 { UpperUpdate(xs, k - 1, q, i, x); }
  }

  /** Scattering counts keeps their total and how many of them are in use. */
  lemma {:induction false} ScatteredTotal(symbols: seq<nat>, c: seq<nat>, k: nat, size: nat)
    requires k <= size <= |c| && HufSort.Permutes(symbols, size)
    ensures HufTree.Total(Scattered(symbols, c, k, size)) == HufTree.Total(c[..k])
    ensures HufSort.Upper(Scattered(symbols, c, k, size), size, 1) == HufSort.Upper(c, k, 1)
    decreases k
  {
    if k == 0 {
      var none: seq<nat> := seq(size, _ => 0);
      SumOfZero(none, size);
      HufSort.UpperNone(none, size, 1);
    } else {
      var before, s := Scattered(symbols, c, k - 1, size), symbols[k - 1];
      ScatteredTotal(symbols, c, k - 1, size);
      FreshSymbol(symbols, k - 1, size);
      ScatteredAt(symbols, c, k - 1, size, s);
      SumOfUpdate(before, size, s, c[k - 1]);
      UpperUpdate(before, size, 1, s, c[k - 1]);
      SumOfSame(c[..k], c[..k - 1], k - 1);
    }
  }

  /** The nodes are the histogram, in another order. */
  lemma NodesTotal(c: seq<nat>, b: seq<nat>, hist: seq<nat>)
    requires HufSort.Nodes(c, b, hist)
    ensures HufTree.Total(c[..|hist|]) == HufTree.Total(hist)
    ensures HufSort.Upper(c, |hist|, 1) == HufSort.Upper(hist, |hist|, 1)
  {
    var n := |hist|;
    var all := Scattered(b, c, n, n);
    ScatteredTotal(b, c, n, n);
    forall s | 0 <= s < n ensures all[s] == hist[s] {
      var i := Position(b, n, s);
      ScatteredAt(b, c, n, n, s);
    }
    assert all == hist;
  }

  lemma {:induction false} UpperOfFirst(c: seq<nat>, i: nat, n: nat)
    requires i <= n <= |c| && forall j :: 0 <= j < i ==> c[j] > 0
    ensures HufSort.Upper(c, n, 1) >= i
    decreases n
  {
    if i < n { UpperOfFirst(c, i, n - 1); } else if n > 0 { UpperOfFirst(c, i - 1, n - 1); }
  }

  /** What the tree builder asks of a sorted histogram. */
  lemma SortedFits(c: seq<nat>, b: seq<nat>, hist: seq<nat>, s: nat, t: nat)
    requires HufSort.Nodes(c, b, hist) && HufSort.Falls(c, 0, |hist|)
    requires s < |hist| && t < |hist| && s != t && hist[s] > 0 && hist[t] > 0
    ensures HufTree.Falling(c, |hist|) && |hist| >= 2 && c[1] > 0
    ensures forall i :: HufSort.Upper(hist, |hist|, 1) <= i < |hist| ==> c[i] == 0
  {
    var i := Position(b, |hist|, s);
    var j := Position(b, |hist|, t);
    NodesTotal(c, b, hist);
    forall k | HufSort.Upper(hist, |hist|, 1) <= k < |hist| ensures c[k] == 0 {
      if c[k] > 0 { UpperOfFirst(c, k + 1, |hist|); }
    }
  }

  function By(xs: seq<nat>, order: seq<nat>): (r: seq<nat>)
    requires forall i :: 0 <= i < |order| ==> order[i] < |xs|
    ensures |r| == |order|
  {
    seq(|order|, i requires 0 <= i < |order| => xs[order[i]])
  }

  /** The symbols in use, each once. */
  ghost predicate Lists(order: seq<nat>, hist: seq<nat>)
  {
    && (forall i :: 0 <= i < |order| ==> order[i] < |hist| && hist[order[i]] > 0)
    && (forall i, j :: 0 <= i < j < |order| ==> order[i] != order[j])
    && forall s :: 0 <= s < |hist| && hist[s] > 0 ==> s in order
  }

  function Target(maxNbBits: nat): nat { if maxNbBits == 0 then HUF_TABLELOG_DEFAULT else maxNbBits }

  /** `HUF_buildCTable_wksp`, for at least two symbols and no more than the limit has words
      for.  Every symbol in use gets a word of a complete prefix code, and no word is
      longer than the limit.  `free` are the lengths that no prefix code beats; if they
      respect the limit they are the ones in the table, otherwise `LimitedBy` says what
      becomes of them. */
  method BuildCTable(ct: array<nat>, hist: seq<nat>, maxNbBits: nat)
    returns (r: Result<nat>, ghost nb: seq<nat>, ghost vals: seq<nat>, ghost order: seq<nat>, ghost free: seq<nat>)
    requires |hist| > 0 && ct.Length == |hist| && Manageable(HufTree.Total(hist), Target(maxNbBits))
    requires exists s, t :: 0 <= s < t < |hist| && hist[s] > 0 && hist[t] > 0
    requires HufSort.Upper(hist, |hist|, 1) <= Pow2(Target(maxNbBits))
    modifies ct
    ensures |hist| > 256 ==> r == Err(MaxSymbolValueTooLarge)
    ensures |hist| <= 256 ==>
      && Lists(order, hist) && |free| == |order| > 0 && Unlimited(free, By(hist, order))
      && r == if Limited(free, Target(maxNbBits)) > HUF_TABLELOG_MAX then Err(Generic) else Ok(Limited(free, Target(maxNbBits)))
    ensures r.Ok? ==>
      && |nb| == |hist| && Complete(nb, r.value) && Canonical(nb, r.value, vals)
      && IsTable(ct[..], nb, vals) && (forall s :: 0 <= s < |hist| ==> (nb[s] > 0 <==> hist[s] > 0))
      && (forall s :: 0 <= s < |nb| && nb[s] > 0 ==> vals[s] < Pow2(nb[s]))
      && (if free[|free| - 1] <= Target(maxNbBits) then By(nb, order) == free
          else HufHeight.LimitedBy(free, By(hist, order), Target(maxNbBits), By(nb, order)))
  {
    hide HufSort.Nodes, HufSort.Falls, HufSort.Upper, Complete, Canonical, IsTable, Pow2, HufOptimal.Best, HufTree.Total, HufTree.Falling,
         HufTree.Fib, Lists, By, HufSort.Permutes, Unlimited, Limited, Manageable, HufHeight.LimitedBy;
    nb, vals, order, free := [], [], [], [];
    if |hist| - 1 > 255 { return Err(MaxSymbolValueTooLarge), nb, vals, order, free; }
    var count, byte := new nat[HufTree.NODES + 1](_ => 0), new nat[HufTree.NODES](_ => 0);
    var parent, nbBits := new nat[HufTree.NODES](_ => 0), new nat[HufTree.NODES](_ => 0);
    SmallCounts(hist, Target(maxNbBits));
    HufSort.Sort(count, byte, hist);
    ghost var c, b := count[1..], byte[..];
    ghost var s, t :| 0 <= s < t < |hist| && hist[s] > 0 && hist[t] > 0;
    SortedFits(c, b, hist, s, t);
    NodesTotal(c, b, hist);
    NodesPermute(c, b, hist);
    assert forall i :: 0 < i <= |hist| ==> count[i] == c[i - 1];
    ghost var used;
    r, used, nb, vals, free := BuildSorted(ct, count, byte, parent, nbBits, |hist| - 1, maxNbBits);
    order := byte[..used];
    UsedNodes(c, b, hist, count[1..], used);
    assert count[1..][..used] == count[1..used + 1];
    if r.Ok? {
      SameNodes(b, hist, nbBits[..], nb, used);
      NodeLengths(b, nbBits[..], nb, used);
    }
  }

  lemma NodesPermute(c: seq<nat>, b: seq<nat>, hist: seq<nat>)
    requires HufSort.Nodes(c, b, hist)
    ensures HufSort.Permutes(b, |hist|) && |hist| <= |c|
  {}

  lemma SmallCounts(hist: seq<nat>, target: nat)
    requires Manageable(HufTree.Total(hist), target)
    ensures forall s :: 0 <= s < |hist| ==> hist[s] < 0x1_0000_0000
  {
    forall s | 0 <= s < |hist| ensures hist[s] < 0x1_0000_0000 { HufTree.TotalMember(hist, s); }
  }

  lemma NodeLengths(b: seq<nat>, bits: seq<nat>, nb: seq<nat>, used: nat)
    requires used <= |nb| && |nb| <= |b| && |nb| <= |bits| && HufSort.Permutes(b, |nb|)
    requires forall i :: 0 <= i < |nb| ==> b[i] < |nb| && nb[b[i]] == bits[i]
    ensures By(nb, b[..used]) == bits[..used]
  {}

  /** The nodes in use are the symbols in use, */
  lemma UsedNodes(c: seq<nat>, b: seq<nat>, hist: seq<nat>, d: seq<nat>, used: nat)
    requires HufSort.Nodes(c, b, hist) && |d| == |c| && d[..|hist|] == c[..|hist|] && used <= |hist|
    requires forall i :: 0 <= i < |hist| ==> (d[i] > 0 <==> i < used)
    ensures Lists(b[..used], hist) && By(hist, b[..used]) == d[..used]
    ensures forall i :: 0 <= i < |hist| ==> b[i] < |hist| && (hist[b[i]] > 0 <==> i < used)
  {
    hide Rank;
    assert forall i :: 0 <= i < |hist| ==> d[i] == d[..|hist|][i] == c[..|hist|][i] == c[i];
    var order := b[..used];
    forall s | 0 <= s < |hist| ensures hist[s] > 0 ==> s in order {
      var i := Position(b, |hist|, s);
      if i < used { assert order[i] == s; }
    }
    forall i, j | 0 <= i < j < |order| ensures order[i] != order[j] {
      RankMono(b, i, j, b[i]);
      RankMono(b, j, |hist|, b[j]);
      FirstAt(b, i);
    }
  }

  /** ... and these have words. */
  lemma SameNodes(b: seq<nat>, hist: seq<nat>, bits: seq<nat>, nb: seq<nat>, used: nat)
    requires HufSort.Permutes(b, |hist|) && used <= |hist| == |nb| <= |bits|
    requires forall i :: 0 <= i < |hist| ==> b[i] < |nb| && nb[b[i]] == bits[i] && (bits[i] > 0 <==> i < used)
    requires forall i :: 0 <= i < |hist| ==> b[i] < |hist| && (hist[b[i]] > 0 <==> i < used)
    ensures forall s :: 0 <= s < |hist| ==> (nb[s] > 0 <==> hist[s] > 0)
  {
    hide Rank;
    forall s | 0 <= s < |hist| ensures nb[s] > 0 <==> hist[s] > 0 {
      var i := Position(b, |hist|, s);
    }
  }

  lemma FirstAt(b: seq<nat>, i: nat)
    requires i < |b|
    ensures Rank(b, i + 1, b[i]) >= 1
  {}
}
