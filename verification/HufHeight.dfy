/** `HUF_setMaxHeight`: shortening over-long Huffman codes without breaking the
    tree.  The node table is held as one array per field. */
module HufHeight {
  import opened Bits
  import opened Counting
  import opened Kraft

  const NO_SYMBOL := 0xF0F0F0F0

  /** The largest symbol value, `HUF_SYMBOLVALUE_MAX`. */
  const MAX_NODES := 255

  /** `p` is the last position that holds `v`, or `NO_SYMBOL` if none does. */
  ghost predicate LastOf(bits: seq<int>, p: nat, v: int)
  {
    if p == NO_SYMBOL then forall i :: 0 <= i < |bits| ==> bits[i] != v
    else p < |bits| && bits[p] == v && forall i :: p < i < |bits| ==> bits[i] != v
  }

  /** `rankLast` names the last symbol of every rank from 1 on; a symbol of rank
      `r` uses `target - r` bits. */
  ghost predicate RanksNamed(bits: seq<int>, rankLast: seq<nat>, target: nat)
  {
    && |rankLast| == HUF_TABLELOG_MAX + 2
    && forall r :: 1 <= r < |rankLast| ==> LastOf(bits, rankLast[r], target - r)
  }

  ghost predicate Lengths(bits: seq<int>, target: nat)
  {
    Rising(bits) && forall i :: 0 <= i < |bits| ==> 1 <= bits[i] <= target
  }

  /** The tree is `cost` units of `2^-target` away from complete, and there are
      more symbols of full length than that. */
  ghost predicate Owes(bits: seq<int>, target: nat, cost: int)
  {
    && Lengths(bits, target)
    && 0 < |bits| <= Pow2(target)
    && Sum(bits, |bits|, target) == Pow2(target) + cost
    && Rank(bits, |bits|, target) > cost && Rank(bits, |bits|, target) > -cost
  }

  // ----- repaying one unit of cost -----

  /** While cost is owed, some symbol is shorter than the full length. */
  lemma SomeRank(bits: seq<int>, target: nat, cost: int)
    requires Owes(bits, target, cost) && cost > 0
    ensures bits[0] < target
  {
    hide Pow2;
    if bits[0] == target { SumFlat(bits, |bits|, target); }
  }

  lemma FullExists(bits: seq<int>, target: nat)
    requires Lengths(bits, target) && Rank(bits, |bits|, target) > 0
    ensures |bits| > 0 && bits[|bits| - 1] == target
  {
    RankNone(bits, |bits|, target);
  }

  /** Lengthening the last symbol of rank `k` by one bit repays `2^(k-1)`, keeps
      the order, and never loses a symbol of full length. */
  lemma Lengthen(bits: seq<int>, target: nat, cost: int, p: nat, k: nat)
    requires Lengths(bits, target) && 1 <= k < target
    requires Sum(bits, |bits|, target) == Pow2(target) + cost
    requires Rank(bits, |bits|, target) > 0
    requires p < |bits| && p != NO_SYMBOL && LastOf(bits, p, target - k)
    ensures var after := bits[p := bits[p] + 1];
            && Lengths(after, target)
            && Sum(after, |after|, target) == Pow2(target) + cost - Pow2(k - 1)
            && Rank(after, |after|, target) == Rank(bits, |bits|, target) + (if k == 1 then 1 else 0)
  {
    hide Pow2;
    FullExists(bits, target);
    SumUpdate(bits, |bits|, target, p, bits[p] + 1);
    RankUpdate(bits, |bits|, target, p, bits[p] + 1);
    Pow2Next(k - 1);
  }

  /** The ranks below `k` (but not rank 0) have no symbol. */
  ghost predicate EmptyBelow(bits: seq<int>, target: nat, k: nat)
  {
    forall i :: 0 <= i < |bits| ==> bits[i] == target || bits[i] <= target - k
  }

  /** Why the correction can never run out of full-length symbols: a repayment
      larger than the debt happens only when the ranks between are empty, so the
      number of full-length symbols is the debt plus a multiple of `2^k`; it is
      also more than the debt, and so exceeds it by at least `2^k`. */
  lemma EnoughFull(bits: seq<int>, target: nat, cost: nat, k: nat)
    requires Owes(bits, target, cost) && 1 <= k < target
    requires EmptyBelow(bits, target, k) && cost < Pow2(k)
    ensures Rank(bits, |bits|, target) >= cost + Pow2(k)
  {
    hide Pow2, Shl;
    var q := SumGap(bits, |bits|, target, k);
    var full := Rank(bits, |bits|, target);
    PowerSplit(target - k, k);
    var whole := Pow2(target - k);
    assert full + Shl(q, k) == Shl(whole, k) + cost;
    if q >= whole {
      ShlMono(whole, q, k);
    } else {
      ShlMono(q + 1, whole, k);
      ShlAdd(q, 1, k);
      ShlOne(k);
    }
  }

  /** One turn of the repayment loop on the lengths. */
  lemma RepayLengths(bits: seq<int>, target: nat, cost: nat, p: nat, k: nat)
    requires Owes(bits, target, cost) && cost > 0 && 1 <= k < target
    requires p < |bits| && p != NO_SYMBOL && LastOf(bits, p, target - k)
    requires Pow2(k - 1) <= cost || EmptyBelow(bits, target, k)
    ensures Owes(bits[p := bits[p] + 1], target, cost - Pow2(k - 1))
    ensures cost < Pow2(k - 1) ==> bits[p := bits[p] + 1][0] < target
  {
    hide Pow2, Shl, Sum, Rank;
    Lengthen(bits, target, cost, p, k);
    if cost < Pow2(k - 1) {
      Pow2Next(k - 1);
      EnoughFull(bits, target, cost, k);
      PowOne(k - 1);
    }
  }

  lemma PowOne(k: nat)
    ensures Pow2(k) == 1 <==> k == 0
  {}

  /** ... and on the table of last symbols. */
  lemma RepayRanks(bits: seq<int>, rankLast: seq<nat>, target: nat, p: nat, k: nat, next: seq<nat>)
    requires Lengths(bits, target) && RanksNamed(bits, rankLast, target) && |bits| <= NO_SYMBOL
    requires 1 <= k < target && k < |rankLast| && p == rankLast[k] && p < |bits|
    requires Rank(bits, |bits|, target) > 0
    requires |next| == |rankLast|
    requires next[k - 1] == if rankLast[k - 1] == NO_SYMBOL then p else rankLast[k - 1]
    requires next[k] == if p == 0 || bits[p - 1] != target - k then NO_SYMBOL else p - 1
    requires forall r :: 0 <= r < |next| && r != k && r != k - 1 ==> next[r] == rankLast[r]
    ensures RanksNamed(bits[p := bits[p] + 1], next, target)
  {
    hide Pow2, Shl, Sum, Rank;
    FullExists(bits, target);
    var after := bits[p := bits[p] + 1];
    forall r | 1 <= r < |next| ensures LastOf(after, next[r], target - r) {
      assert LastOf(bits, rankLast[r], target - r);
      assert LastOf(bits, rankLast[k], target - k);
    }
  }

  // ----- adding cost back -----

  /** Shortening the first symbol of full length by one bit takes back one unit. */
  lemma AddBackLengths(bits: seq<int>, target: nat, cost: int, q: nat)
    requires Owes(bits, target, cost) && cost < 0 && bits[0] < target
    requires 0 < q < |bits| && bits[q] == target && bits[q - 1] < target
    ensures Owes(bits[q := target - 1], target, cost + 1)
  {
    hide Pow2;
    SumUpdate(bits, |bits|, target, q, target - 1);
    RankUpdate(bits, |bits|, target, q, target - 1);
    Pow2Next(0);
    ShareFull(target);
  }

  lemma ShareFull(target: nat)
    ensures Share(target, target) == 1
    ensures target > 0 ==> Share(target, target - 1) == 2
  {}

  // ----- cutting the long codes -----

  /** A complete tree: lengths that rise to `largest` and fill the code space. */
  ghost predicate CompleteTree(bits: seq<int>, largest: nat)
  {
    && Rising(bits) && |bits| > 0 && bits[|bits| - 1] == largest
    && (forall i :: 0 <= i < |bits| ==> bits[i] >= 1)
    && Sum(bits, |bits|, largest) == Pow2(largest)
  }

  lemma {:induction false} SumCap(bits: seq<int>, k: nat, target: nat, largest: nat)
    requires k <= |bits| && target <= largest
    requires forall i :: 0 <= i < k ==> target <= bits[i] <= largest
    ensures Sum(bits, k, largest) <= Shl(k, largest - target)
    ensures k > 0 && bits[k - 1] > target ==> Sum(bits, k, largest) < Shl(k, largest - target)
    decreases k
  {
    hide Pow2, Shl;
    if k > 0 {
      SumCap(bits, k - 1, target, largest);
      ShlAdd(k - 1, 1, largest - target);
      ShlOne(largest - target);
      Pow2Mono(largest - bits[k - 1], largest - target);
    }
  }

  /** With room for all symbols at `target` bits, the most frequent one is shorter. */
  lemma FirstIsShort(bits: seq<int>, target: nat, largest: nat)
    requires CompleteTree(bits, largest) && target < largest && |bits| <= Pow2(target)
    ensures bits[0] < target
  {
    hide Pow2, Shl;
    if bits[0] >= target {
      SumCap(bits, |bits|, target, largest);
      ShlMono(|bits|, Pow2(target), largest - target);
      PowerSplit(target, largest - target);
    }
  }

  /** What the cut leaves to be repaid, in units of `2^-target`. */
  lemma CutOwes(bits: seq<int>, target: nat, largest: nat, total: nat, cut: nat)
    requires Lengths(bits, target) && 0 < |bits| <= Pow2(target) && target < largest
    requires Sum(bits, |bits|, largest) == Pow2(largest) + total
    requires 0 < cut <= Rank(bits, |bits|, target)
    requires 0 < total && total + cut <= Shl(cut, largest - target)
    ensures Low(total, largest - target) == 0 && 0 < Shr(total, largest - target)
    ensures Owes(bits, target, Shr(total, largest - target))
  {
    hide Pow2, Shl, Low, Shr, Sum, Rank;
    var d := largest - target;
    var whole := Sum(bits, |bits|, target);
    SumScale(bits, |bits|, target, largest);
    PowerSplit(target, d);
    if whole < Pow2(target) { ShlMono(whole, Pow2(target), d); }
    var cost := whole - Pow2(target);
    ShlAdd(Pow2(target), cost, d);
    ShrShl(cost, d);
    if cost >= cut { ShlMono(cut, cost, d); }
    if cost == 0 { ShlZero(d); }
  }

  lemma {:induction false} RankTail(xs: seq<int>, a: nat, m: nat, v: int)
    requires a <= m <= |xs| && forall i :: a <= i < m ==> xs[i] == v
    ensures Rank(xs, m, v) >= m - a
    decreases m
  {
    if a < m { RankTail(xs, a, m - 1, v); }
  }

  /** Cutting one more code adds the difference of the shares. */
  lemma CutOne(bits: seq<int>, target: nat, largest: nat, n: nat, total: nat, cut: nat)
    requires n < |bits| && target < bits[n] <= largest
    requires Sum(bits, |bits|, largest) == Pow2(largest) + total
    requires total + cut <= Shl(cut, largest - target)
    ensures var more := Pow2(largest - target) - Pow2(largest - bits[n]);
            && more > 0
            && Sum(bits[n := target], |bits|, largest) == Pow2(largest) + total + more
            && total + more + cut + 1 <= Shl(cut + 1, largest - target)
  {
    hide Pow2, Shl, Sum;
    SumUpdate(bits, |bits|, largest, n, target);
    Pow2Mono(largest - bits[n], largest - target);
    ShlAdd(cut, 1, largest - target);
    ShlOne(largest - target);
  }

  /** What the 32 bits of `totalCost` allow: with few symbols the codes may be longer than
      31 bits. */
  predicate IntSafe(target: nat, largest: nat) { largest <= 31 || largest <= target + 23 }

  /** The running cost stays inside a C `int`. */
  lemma IntRange(total: nat, cut: nat, target: nat, largest: nat)
    requires cut <= Pow2(target) && cut <= MAX_NODES + 1 && target < largest && IntSafe(target, largest)
    requires total + cut <= Shl(cut, largest - target)
    ensures total <= 0x7FFF_FFFF || cut == 0
  {
    hide Pow2, Shl;
    var d := largest - target;
    Pow2Wide();
    Pow2Values();
    if largest <= 31 {
      ShlMono(cut, Pow2(target), d);
      PowerSplit(target, d);
      Pow2Mono(largest, 31);
    } else {
      ShlMono(cut, Pow2(8), d);
      PowerSplit(8, d);
      Pow2Mono(8 + d, 31);
    }
  }

  /** Cuts every code longer than `target`, from the rarest symbol on. */
  method CutLong(nbBits: array<nat>, lastNonNull: nat, target: nat, largest: nat) returns (n: nat, totalCost: nat)
    requires lastNonNull < nbBits.Length && lastNonNull < Pow2(target) && lastNonNull <= MAX_NODES
    requires target < largest && IntSafe(target, largest)
    requires CompleteTree(nbBits[..lastNonNull + 1], largest)
    modifies nbBits
    ensures n < lastNonNull && totalCost > 0
    ensures nbBits[..n + 1] == old(nbBits[..n + 1]) && nbBits[n] <= target
    ensures forall i :: n < i <= lastNonNull ==> nbBits[i] == target && old(nbBits[i]) > target
    ensures Sum(nbBits[..lastNonNull + 1], lastNonNull + 1, largest) == Pow2(largest) + totalCost
    ensures totalCost + (lastNonNull - n) <= Shl(lastNonNull - n, largest - target)
    ensures nbBits[0] < target
    ensures nbBits[lastNonNull + 1..] == old(nbBits[lastNonNull + 1..])
  {
    hide Pow2, Shl, Shr, Low, Sum, Rank;
    var m := lastNonNull + 1;
    ghost var before := nbBits[..m];
    var d := largest - target;
    FirstIsShort(before, target, largest);
    ShlZero(d);
    totalCost := 0;
    var baseCost := Pow2(d);
    n := lastNonNull;
    while nbBits[n] > target
      invariant n < m && nbBits[..n + 1] == before[..n + 1]
      invariant forall i :: n < i < m ==> nbBits[i] == target && before[i] > target
      invariant nbBits[m..] == old(nbBits[m..])
      invariant Sum(nbBits[..m], m, largest) == Pow2(largest) + totalCost
      invariant totalCost + (lastNonNull - n) <= Shl(lastNonNull - n, d)
      invariant n < lastNonNull ==> totalCost > 0
      invariant totalCost <= 0x7FFF_FFFF
      decreases n
    {
      assert before[n] == nbBits[n] <= largest;
      CutOne(nbBits[..m], target, largest, n, totalCost, lastNonNull - n);
      totalCost := totalCost + (baseCost - Pow2(largest - nbBits[n]));
      IntRange(totalCost, lastNonNull - n + 1, target, largest);
      ghost var was := nbBits[..m];
      nbBits[n] := target;
      assert nbBits[..m] == was[n := target];
      n := n - 1;
    }
    assert nbBits[0] == before[0];
  }

  lemma CutIs(bits: seq<int>, after: seq<int>, n: nat, target: nat)
    requires Rising(bits) && n < |bits| == |after| && bits[n] <= target
    requires (forall i :: 0 <= i <= n ==> after[i] == bits[i]) && forall i :: n < i < |bits| ==> after[i] == target < bits[i]
    ensures after == CutTo(bits, target)
  {}

  /** The cut and the cost it leaves, renormalised.  `n` ends at the last symbol
      that is shorter than `target`. */
  method Cut(nbBits: array<nat>, lastNonNull: nat, target: nat, largest: nat) returns (n: nat, totalCost: nat)
    requires lastNonNull < nbBits.Length && lastNonNull < Pow2(target) && lastNonNull <= MAX_NODES
    requires target < largest && IntSafe(target, largest)
    requires CompleteTree(nbBits[..lastNonNull + 1], largest)
    modifies nbBits
    ensures Owes(nbBits[..lastNonNull + 1], target, totalCost) && totalCost > 0
    ensures n < lastNonNull && forall i :: n < i <= lastNonNull ==> nbBits[i] == target
    ensures nbBits[..lastNonNull + 1] == CutTo(old(nbBits[..lastNonNull + 1]), target)
    ensures nbBits[lastNonNull + 1..] == old(nbBits[lastNonNull + 1..])
  {
    hide Pow2, Shl, Shr, Low, Sum, Rank;
    var m := lastNonNull + 1;
    ghost var before := nbBits[..m];
    n, totalCost := CutLong(nbBits, lastNonNull, target, largest);
    ghost var last, cut := n, lastNonNull - n;
    while nbBits[n] == target
      invariant 0 <= n <= last
      invariant forall i :: n < i < m ==> nbBits[i] == target
      decreases n
    {
      n := n - 1;
    }
    assert Lengths(nbBits[..m], target) by {
      assert forall i :: 0 <= i <= last ==> nbBits[i] == before[i] <= before[last];
    }
    CutIs(before, nbBits[..m], last, target);
    RankTail(nbBits[..m], m - cut, m, target);
    CutOwes(nbBits[..m], target, largest, totalCost, cut);
    totalCost := Shr(totalCost, largest - target);
  }

  // ----- the table of last symbols -----

  /** `LastOf`, looking only at positions from `from` on. */
  ghost predicate LastFrom(bits: seq<int>, p: nat, v: int, from: int)
  {
    if p == NO_SYMBOL then forall i :: 0 <= i < |bits| && i >= from ==> bits[i] != v
    else from <= p < |bits| && bits[p] == v && forall i :: p < i < |bits| ==> bits[i] != v
  }

  /** Scans from the last short symbol to the first; a new rank starts wherever the
      length drops. */
  method FindRanks(nbBits: array<nat>, lastNonNull: nat, target: nat, n: nat) returns (rankLast: array<nat>)
    requires lastNonNull < nbBits.Length && n <= lastNonNull <= MAX_NODES && target <= HUF_TABLELOG_MAX
    requires Lengths(nbBits[..lastNonNull + 1], target)
    requires forall i :: n < i <= lastNonNull ==> nbBits[i] == target
    ensures fresh(rankLast) && RanksNamed(nbBits[..lastNonNull + 1], rankLast[..], target)
  {
    hide Pow2;
    ghost var bits := nbBits[..lastNonNull + 1];
    rankLast := new nat[HUF_TABLELOG_MAX + 2](_ => NO_SYMBOL);
    var currentNbBits := target;
    var pos: int := n;
    while pos >= 0
      invariant -1 <= pos <= n
      invariant currentNbBits == if pos < lastNonNull then bits[pos + 1] else target
      invariant forall r :: 1 <= r < rankLast.Length ==> LastFrom(bits, rankLast[r], target - r, pos + 1)
    {
      if nbBits[pos] < currentNbBits {
        currentNbBits := nbBits[pos];
        rankLast[target - currentNbBits] := pos;
      }
      pos := pos - 1;
    }
  }

  // ----- which symbol is lengthened -----

  /** The last of the first `n` positions that holds `v`, or `NO_SYMBOL`. */
  function LastWith(bits: seq<int>, n: nat, v: int): nat
    requires n <= |bits|
  {
    if n == 0 then NO_SYMBOL else if bits[n - 1] == v then n - 1 else LastWith(bits, n - 1, v)
  }

  lemma {:induction false} LastWithIs(bits: seq<int>, n: nat, v: int)
    requires n <= |bits| <= MAX_NODES + 1
    ensures var p := LastWith(bits, n, v);
      if p == NO_SYMBOL then forall i :: 0 <= i < n ==> bits[i] != v
      else p < n && bits[p] == v && forall i :: p < i < n ==> bits[i] != v
  {
    if n > 0 { LastWithIs(bits, n - 1, v); }
  }

  /** The last symbol of rank `r`, which is the rarest one. */
  function Rarest(bits: seq<int>, target: nat, r: nat): nat { LastWith(bits, |bits|, target - r) }

  lemma NamedRarest(bits: seq<int>, target: nat, p: nat, r: nat)
    requires |bits| <= MAX_NODES + 1 && LastOf(bits, p, target - r)
    ensures p == Rarest(bits, target, r) && (p != NO_SYMBOL ==> p < |bits|)
  {
    LastWithIs(bits, |bits|, target - r);
  }

  ghost predicate Used(bits: seq<int>, target: nat, r: nat) { Rarest(bits, target, r) < |bits| }

  /** Two symbols of rank `r - 1` are cheaper to lengthen than one of rank `r`. */
  ghost predicate Dearer(bits: seq<int>, count: seq<nat>, target: nat, r: nat)
  {
    && r > 0 && |bits| <= |count| && Used(bits, target, r) && Used(bits, target, r - 1)
    && count[Rarest(bits, target, r)] > 2 * count[Rarest(bits, target, r - 1)]
  }

  /** The rank to lengthen while `cost` is owed: the highest that repays no more than that and
      is not dearer than two of the rank below; if no rank that low is in use, the lowest
      that is. */
  ghost predicate Chosen(bits: seq<int>, count: seq<nat>, target: nat, cost: nat, k: nat)
  {
    cost > 0 && var h := Highbit(cost) + 1;
    && 1 <= k && Used(bits, target, k)
    && if k <= h then (k > 1 ==> !Dearer(bits, count, target, k))
                      && forall j :: k < j <= h ==> Used(bits, target, j) ==> Dearer(bits, count, target, j)
       else forall j :: 1 <= j < k ==> !Used(bits, target, j)
  }

  /** One repayment: the lengths and the debt before it, and the rank. */
  datatype Payment = Payment(bits: seq<int>, cost: nat, k: nat)

  /** The lengths after it. */
  ghost function Paid(y: Payment, target: nat): (r: seq<int>)
    ensures |r| == |y.bits|
  {
    var p := Rarest(y.bits, target, y.k);
    if p < |y.bits| then y.bits[p := y.bits[p] + 1] else y.bits
  }

  ghost predicate Pays(pays: seq<Payment>, count: seq<nat>, target: nat)
  {
    && (forall i :: 0 <= i < |pays| ==> Chosen(pays[i].bits, count, target, pays[i].cost, pays[i].k))
    && forall i :: 0 <= i < |pays| - 1 ==>
         pays[i + 1].bits == Paid(pays[i], target) && pays[i + 1].cost == pays[i].cost - Pow2(pays[i].k - 1)
  }

  /** Lengths cut at the limit. */
  function CutTo(bits: seq<int>, target: nat): (r: seq<int>)
    ensures |r| == |bits| && forall i :: 0 <= i < |r| ==> r[i] == if bits[i] > target then target else bits[i]
  {
    seq(|bits|, i requires 0 <= i < |bits| => if bits[i] > target then target else bits[i])
  }

  /** `after` is `bits` with the first `n` symbols of full length one bit shorter. */
  ghost predicate FirstShortened(bits: seq<int>, target: nat, n: nat, after: seq<int>)
  {
    && |after| == |bits|
    && exists q: nat :: q + n <= |bits| && ShortenedAt(bits, target, n, after, q)
  }

  ghost predicate ShortenedAt(bits: seq<int>, target: nat, n: nat, after: seq<int>, q: nat)
    requires |after| == |bits| && q + n <= |bits|
  {
    && (forall i :: 0 <= i < q ==> bits[i] != target && after[i] == bits[i])
    && (forall i :: q <= i < q + n ==> bits[i] == target && after[i] == target - 1)
    && forall i :: q + n <= i < |bits| ==> after[i] == bits[i]
  }

  /** The lengths `after` come from `free` by cutting at the limit, repaying what that costs
      rank by rank, and giving back what was repaid too much. */
  ghost predicate LimitedBy(free: seq<int>, count: seq<nat>, target: nat, after: seq<int>)
  {
    exists pays: seq<Payment> :: |pays| > 0 && Pays(pays, count, target) && Bounds(pays, free, target, after)
  }

  ghost predicate Bounds(pays: seq<Payment>, free: seq<int>, target: nat, after: seq<int>)
    requires |pays| > 0
  {
    var first, last := pays[0], pays[|pays| - 1];
    && first.bits == CutTo(free, target) && Sum(first.bits, |first.bits|, target) == Pow2(target) + first.cost
    && last.k > 0 && var rest := last.cost - Pow2(last.k - 1);
    && rest <= 0 && FirstShortened(Paid(last, target), target, -rest, after)
  }

  lemma NamedRanks(bits: seq<int>, rankLast: seq<nat>, target: nat)
    requires |bits| <= MAX_NODES + 1 && RanksNamed(bits, rankLast, target)
    ensures forall r :: 1 <= r < |rankLast| ==>
      rankLast[r] == Rarest(bits, target, r) && (Used(bits, target, r) <==> rankLast[r] != NO_SYMBOL)
  {
    hide LastOf, Rarest;
    forall r | 1 <= r < |rankLast|
      ensures rankLast[r] == Rarest(bits, target, r) && (Used(bits, target, r) <==> rankLast[r] != NO_SYMBOL)
    {
      NamedRarest(bits, target, rankLast[r], r);
    }
  }

  /** Chooses the rank to lengthen: normally one that repays at most the debt and
      looks cheap; only if all those are empty, the closest one above. */
  method Pick(count: seq<nat>, rankLast: array<nat>, totalCost: nat, ghost bits: seq<int>, target: nat)
    returns (k: nat)
    requires totalCost > 0 && Owes(bits, target, totalCost) && RanksNamed(bits, rankLast[..], target)
    requires target <= HUF_TABLELOG_MAX && |bits| <= |count| && |bits| <= MAX_NODES + 1
    ensures 1 <= k < target && rankLast[k] < |bits|
    ensures Pow2(k - 1) <= totalCost || EmptyBelow(bits, target, k)
    ensures Chosen(bits, count, target, totalCost, k) && rankLast[k] == Rarest(bits, target, k)
  {
    hide Pow2, Sum, Rarest, Used, Dearer;
    NamedRanks(bits, rankLast[..], target);
    CostBits(bits, target, totalCost);
    SomeRank(bits, target, totalCost);
    ghost var h := Highbit(totalCost);
    k := Highbit(totalCost) + 1;
    while k > 1
      invariant 1 <= k <= h + 1
      invariant forall j :: k < j <= h + 1 && Used(bits, target, j) ==> Dearer(bits, count, target, j)
      decreases k
    {
      var highPos := rankLast[k];
      var lowPos := rankLast[k - 1];
      Compare(bits, count, target, k);
      if highPos != NO_SYMBOL {
        if lowPos == NO_SYMBOL { break; }
        var highTotal := count[highPos];
        var lowTotal := 2 * count[lowPos];
        if highTotal <= lowTotal { break; }
      }
      k := k - 1;
    }
    ghost var cheap := k;
    if !Used(bits, target, k) { NoneBelow(bits, count, target, h + 1); }
    ghost var shortest := target - bits[0];
    assert LastOf(bits, rankLast[shortest], target - shortest);
    while k <= HUF_TABLELOG_MAX && rankLast[k] == NO_SYMBOL
      invariant cheap <= k <= HUF_TABLELOG_MAX + 1 && (k > cheap ==> !Used(bits, target, cheap))
      invariant !Used(bits, target, cheap) ==> forall r :: 1 <= r < k ==> rankLast[r] == NO_SYMBOL
      decreases HUF_TABLELOG_MAX - k
    {
      k := k + 1;
    }
    assert LastOf(bits, rankLast[k], target - k);
    if k <= h + 1 {
      HighbitBounds(totalCost);
      Pow2Mono(k - 1, h);
    } else {
      forall i | 0 <= i < |bits| ensures bits[i] == target || bits[i] <= target - k {
        var r := target - bits[i];
        assert 1 <= r < k ==> LastOf(bits, rankLast[r], target - r);
      }
    }
  }

  /** What the comparison of two ranks says. */
  lemma Compare(bits: seq<int>, count: seq<nat>, target: nat, k: nat)
    requires |bits| <= |count| && k > 0
    ensures Dearer(bits, count, target, k) <==>
            Used(bits, target, k) && Used(bits, target, k - 1) && count[Rarest(bits, target, k)] > 2 * count[Rarest(bits, target, k - 1)]
    ensures forall r :: Used(bits, target, r) ==> Rarest(bits, target, r) < |bits|
  {
    hide Rarest;
  }

  /** If every rank in use is dearer than two of the one below, none is in use without rank 1. */
  lemma {:induction false} NoneBelow(bits: seq<int>, count: seq<nat>, target: nat, h: nat)
    requires forall j :: 1 < j <= h && Used(bits, target, j) ==> Dearer(bits, count, target, j)
    requires !Used(bits, target, 1)
    ensures forall j :: 1 <= j <= h ==> !Used(bits, target, j)
  {
    hide Used, Rarest;
    if h > 1 {
      NoneBelow(bits, count, target, h - 1);
      if Used(bits, target, h) { DearerUses(bits, count, target, h); }
    }
  }

  lemma DearerUses(bits: seq<int>, count: seq<nat>, target: nat, r: nat)
    requires Dearer(bits, count, target, r)
    ensures r > 0 && Used(bits, target, r - 1)
  {}

  lemma CostBits(bits: seq<int>, target: nat, cost: nat)
    requires Owes(bits, target, cost) && cost > 0 && target <= HUF_TABLELOG_MAX
    ensures Highbit(cost) < target
  {
    hide Pow2;
    HighbitBounds(cost);
    if Highbit(cost) >= target { Pow2Mono(target, Highbit(cost)); }
  }

  /** One turn of the repayment loop. */
  method Repay(nbBits: array<nat>, count: seq<nat>, rankLast: array<nat>, lastNonNull: nat, target: nat,
               ghost n: nat, totalCost: nat) returns (rest: int, ghost k: nat)
    requires nbBits != rankLast && lastNonNull < nbBits.Length && lastNonNull <= MAX_NODES && lastNonNull < |count|
    requires target <= HUF_TABLELOG_MAX && totalCost > 0
    requires Owes(nbBits[..lastNonNull + 1], target, totalCost)
    requires RanksNamed(nbBits[..lastNonNull + 1], rankLast[..], target)
    requires forall i :: n < i <= lastNonNull ==> nbBits[i] == target
    modifies nbBits, rankLast
    ensures 1 <= k && rest == totalCost - Pow2(k - 1) < totalCost
    ensures Chosen(old(nbBits[..lastNonNull + 1]), count, target, totalCost, k)
    ensures nbBits[..lastNonNull + 1] == Paid(Payment(old(nbBits[..lastNonNull + 1]), totalCost, k), target)
    ensures Owes(nbBits[..lastNonNull + 1], target, rest)
    ensures RanksNamed(nbBits[..lastNonNull + 1], rankLast[..], target)
    ensures forall i :: n < i <= lastNonNull ==> nbBits[i] == target
    ensures rest < 0 ==> nbBits[0] < target
    ensures nbBits[lastNonNull + 1..] == old(nbBits[lastNonNull + 1..])
  {
    hide Pow2, Sum, Rank, Lengths, EmptyBelow, Chosen, Rarest;
    var m := lastNonNull + 1;
    ghost var bits, ranks := nbBits[..m], rankLast[..];
    var nBitsToDecrease := Pick(count, rankLast, totalCost, bits, target);
    k := nBitsToDecrease;
    var p := rankLast[nBitsToDecrease];
    assert LastOf(bits, p, target - k);
    RepayLengths(bits, target, totalCost, p, k);
    rest := totalCost - Pow2(nBitsToDecrease - 1);
    nbBits[p] := nbBits[p] + 1;
    assert nbBits[..m] == bits[p := bits[p] + 1];
    if rankLast[nBitsToDecrease - 1] == NO_SYMBOL {
      rankLast[nBitsToDecrease - 1] := rankLast[nBitsToDecrease];
    }
    if rankLast[nBitsToDecrease] == 0 {
      rankLast[nBitsToDecrease] := NO_SYMBOL;
    } else {
      rankLast[nBitsToDecrease] := rankLast[nBitsToDecrease] - 1;
      if nbBits[rankLast[nBitsToDecrease]] != target - nBitsToDecrease {
        rankLast[nBitsToDecrease] := NO_SYMBOL;
      }
    }
    RepayRanks(bits, ranks, target, p, k, rankLast[..]);
  }

  lemma NoneShortened(bits: seq<int>, target: nat)
    ensures FirstShortened(bits, target, 0, bits)
  {
    assert ShortenedAt(bits, target, 0, bits, 0);
  }

  /** The first symbol that still has full length is the next one. */
  lemma OneShortened(start: seq<int>, target: nat, n: nat, bits: seq<int>, q: nat)
    requires Rising(start) && (forall i :: 0 <= i < |start| ==> start[i] <= target) && FirstShortened(start, target, n, bits)
    requires 0 < q < |bits| && bits[q] == target && bits[q - 1] < target
    ensures FirstShortened(start, target, n + 1, bits[q := target - 1])
  {
    var first: nat :| first + n <= |start| && ShortenedAt(start, target, n, bits, first);
    if n == 0 {
      assert ShortenedAt(start, target, 1, bits[q := target - 1], q);
    } else {
      assert start[first] == target;
      assert ShortenedAt(start, target, n + 1, bits[q := target - 1], first);
    }
  }

  lemma OwesLengths(bits: seq<int>, target: nat, cost: int)
    requires Owes(bits, target, cost)
    ensures Rising(bits) && forall i :: 0 <= i < |bits| ==> 1 <= bits[i] <= target
  {}

  /** The first symbol of full length: after the last one of rank 1, if there is any. */
  method NextFull(nbBits: array<nat>, rank1: nat, lastNonNull: nat, target: nat, n0: nat, ghost cost: int) returns (q: nat, n: nat)
    requires n0 < lastNonNull < nbBits.Length && lastNonNull <= MAX_NODES
    requires Owes(nbBits[..lastNonNull + 1], target, cost) && nbBits[0] < target
    requires LastOf(nbBits[..lastNonNull + 1], rank1, target - 1)
    requires rank1 == NO_SYMBOL ==> forall i :: n0 < i <= lastNonNull ==> nbBits[i] == target
    ensures 0 < q <= lastNonNull && nbBits[q] == target && nbBits[q - 1] < target && n <= n0
  {
    hide Pow2, Sum, Rank;
    ghost var bits := nbBits[..lastNonNull + 1];
    assert Rank(bits, |bits|, target) > 0;
    FullExists(bits, target);
    assert bits[lastNonNull] == target && bits[0] == nbBits[0];
    n := n0;
    if rank1 == NO_SYMBOL {
      while nbBits[n] == target
        invariant 0 <= n <= n0 && forall i :: n < i <= lastNonNull ==> nbBits[i] == target
        decreases n
      {
        n := n - 1;
      }
      q := n + 1;
      assert bits[n] == nbBits[n];
    } else {
      q := rank1 + 1;
      assert bits[q] == nbBits[q] && bits[q - 1] == nbBits[q - 1];
    }
  }

  /** Takes back what was repaid too much, from the first symbols of full length. */
  method AddBack(nbBits: array<nat>, rankLast: array<nat>, lastNonNull: nat, target: nat, n0: nat, cost: int)
    requires nbBits != rankLast && lastNonNull < nbBits.Length && lastNonNull <= MAX_NODES
    requires n0 < lastNonNull && cost <= 0 && target <= HUF_TABLELOG_MAX
    requires Owes(nbBits[..lastNonNull + 1], target, cost)
    requires RanksNamed(nbBits[..lastNonNull + 1], rankLast[..], target)
    requires forall i :: n0 < i <= lastNonNull ==> nbBits[i] == target
    requires cost < 0 ==> nbBits[0] < target
    modifies nbBits, rankLast
    ensures Owes(nbBits[..lastNonNull + 1], target, 0)
    ensures FirstShortened(old(nbBits[..lastNonNull + 1]), target, -cost, nbBits[..lastNonNull + 1])
    ensures nbBits[lastNonNull + 1..] == old(nbBits[lastNonNull + 1..])
  {
    hide Pow2, Sum, Rank, FirstShortened, Owes;
    OwesLengths(nbBits[..lastNonNull + 1], target, cost);
    var m := lastNonNull + 1;
    var totalCost, n := cost, n0;
    ghost var start := nbBits[..m];
    NoneShortened(start, target);
    assert LastOf(nbBits[..m], rankLast[1], target - 1);
    while totalCost < 0
      invariant totalCost <= 0 && 0 <= n < lastNonNull
      invariant Owes(nbBits[..m], target, totalCost) && FirstShortened(start, target, totalCost - cost, nbBits[..m])
      invariant LastOf(nbBits[..m], rankLast[1], target - 1) && rankLast.Length > 1
      invariant totalCost < 0 ==> nbBits[0] < target
      invariant rankLast[1] == NO_SYMBOL ==> forall i :: n < i < m ==> nbBits[i] == target
      invariant nbBits[m..] == old(nbBits[m..])
      decreases -totalCost
    {
      ghost var bits: seq<int> := nbBits[..m];
      OwesLengths(bits, target, totalCost);
      var q;
      q, n := NextFull(nbBits, rankLast[1], lastNonNull, target, n, totalCost);
      AddBackLengths(bits, target, totalCost, q);
      OneShortened(start, target, totalCost - cost, bits, q);
      nbBits[q] := nbBits[q] - 1;
      assert nbBits[..m] == bits[q := target - 1];
      rankLast[1] := q;
      totalCost := totalCost + 1;
    }
  }

  lemma ChosenPositive(bits: seq<int>, count: seq<nat>, target: nat, cost: nat, k: nat)
    requires Chosen(bits, count, target, cost, k)
    ensures k >= 1
  {}

  /** One more payment. */
  lemma PaysMore(pays: seq<Payment>, y: Payment, count: seq<nat>, target: nat)
    requires Pays(pays, count, target) && Chosen(y.bits, count, target, y.cost, y.k)
    requires |pays| > 0 ==> Follows(pays[|pays| - 1], y, target)
    ensures Pays(pays + [y], count, target)
  {
    hide Chosen, Paid, Pow2;
    var more := pays + [y];
    forall i | 0 <= i < |more| ensures more[i].k >= 1 { ChosenPositive(more[i].bits, count, target, more[i].cost, more[i].k); }
    forall i | 0 <= i < |more| - 1
      ensures more[i + 1].bits == Paid(more[i], target) && more[i + 1].cost == more[i].cost - Pow2(more[i].k - 1)
    {
      if i == |pays| - 1 { assert more[i] == pays[i]; }
    }
  }

  ghost predicate Follows(x: Payment, y: Payment, target: nat)
  {
    y.bits == Paid(x, target) && x.k > 0 && y.cost == x.cost - Pow2(x.k - 1)
  }

  lemma NoPays(count: seq<nat>, target: nat)
    ensures Pays([], count, target)
  {}

  /** Only the counts of the symbols at hand matter. */
  lemma ChosenAmong(bits: seq<int>, count: seq<nat>, counts: seq<nat>, target: nat, cost: nat, k: nat)
    requires |bits| <= |count| && counts == count[..|bits|] && Chosen(bits, count, target, cost, k)
    ensures Chosen(bits, counts, target, cost, k)
  {
    hide Rarest;
    assert forall p :: 0 <= p < |bits| ==> counts[p] == count[p];
    assert forall j :: Dearer(bits, count, target, j) <==> Dearer(bits, counts, target, j);
  }

  /** Where the payments have led: to the lengths and the debt that is left. */
  ghost predicate LeadsTo(pays: seq<Payment>, free: seq<int>, target: nat, bits: seq<int>, rest: int)
  {
    if |pays| == 0 then bits == CutTo(free, target) && rest > 0 && Sum(bits, |bits|, target) == Pow2(target) + rest
    else
      var first, last := pays[0], pays[|pays| - 1];
      && first.bits == CutTo(free, target) && Sum(first.bits, |first.bits|, target) == Pow2(target) + first.cost
      && last.k > 0 && bits == Paid(last, target) && rest == last.cost - Pow2(last.k - 1)
  }

  /** `HUF_setMaxHeight`.  A tree that is too high comes back complete, in order,
      with no code longer than `target` and the rarest symbol at `target`; `LimitedBy` says
      how the lengths came about. */
  method SetMaxHeight(nbBits: array<nat>, count: seq<nat>, lastNonNull: nat, target: nat) returns (maxBits: nat)
    requires lastNonNull < nbBits.Length && lastNonNull <= MAX_NODES && lastNonNull < |count|
    requires CompleteTree(nbBits[..lastNonNull + 1], nbBits[lastNonNull])
    requires nbBits[lastNonNull] > target ==>
               lastNonNull + 1 <= Pow2(target) && target <= HUF_TABLELOG_MAX && IntSafe(target, nbBits[lastNonNull])
    modifies nbBits
    ensures maxBits == if old(nbBits[lastNonNull]) <= target then old(nbBits[lastNonNull]) else target
    ensures CompleteTree(nbBits[..lastNonNull + 1], maxBits)
    ensures nbBits[lastNonNull + 1..] == old(nbBits[lastNonNull + 1..])
    ensures old(nbBits[lastNonNull]) <= target ==> nbBits[..] == old(nbBits[..])
    ensures old(nbBits[lastNonNull]) > target ==>
              LimitedBy(old(nbBits[..lastNonNull + 1]), count[..lastNonNull + 1], target, nbBits[..lastNonNull + 1])
  {
    hide Pow2, Sum, Rank, Chosen, Paid, Pays, FirstShortened, Used;
    var m := lastNonNull + 1;
    var largestBits := nbBits[lastNonNull];
    if largestBits <= target { return largestBits; }
    ghost var free, counts, pays := nbBits[..m], count[..m], [];
    NoPays(counts, target);
    var n, cost := Cut(nbBits, lastNonNull, target, largestBits);
    var rankLast := FindRanks(nbBits, lastNonNull, target, n);
    var totalCost: int := cost;
    while totalCost > 0
      invariant Owes(nbBits[..m], target, totalCost)
      invariant RanksNamed(nbBits[..m], rankLast[..], target)
      invariant nbBits[m..] == old(nbBits[m..])
      invariant forall i :: n < i < m ==> nbBits[i] == target
      invariant totalCost < 0 ==> nbBits[0] < target
      invariant Pays(pays, counts, target) && LeadsTo(pays, free, target, nbBits[..m], totalCost)
      decreases totalCost
    {
      ghost var bits, owed, k := nbBits[..m], totalCost, 0;
      totalCost, k := Repay(nbBits, count, rankLast, lastNonNull, target, n, totalCost);
      ghost var y := Payment(bits, owed, k);
      ChosenAmong(bits, count, counts, target, owed, k);
      PaysMore(pays, y, counts, target);
      pays := pays + [y];
    }
    ghost var bits, rest := nbBits[..m], totalCost;
    AddBack(nbBits, rankLast, lastNonNull, target, n, totalCost);
    FullExists(nbBits[..m], target);
    assert Bounds(pays, free, target, nbBits[..m]);
    return target;
  }
}
