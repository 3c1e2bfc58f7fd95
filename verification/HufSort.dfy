/** `HUF_sort`: symbols by falling count, with buckets and a quicksort inside the
    large ones.  The node table is held as one array per field; node `i` has its
    count at `count[1 + i]`, as in `huffNode0`. */
module HufSort {
  import opened Bits
  import opened Counting

  // ----- the nodes as a permutation of the symbols -----

  /** The first `n` entries are the symbols below `n`, each once. */
  ghost predicate Permutes(symbols: seq<nat>, n: nat)
  {
    && n <= |symbols| && (forall i :: 0 <= i < n ==> symbols[i] < n)
    && forall s :: 0 <= s < n ==> Rank(symbols, n, s) == 1
  }

  /** Every symbol has one node, and every node the count of its symbol. */
  ghost predicate Nodes(c: seq<nat>, b: seq<nat>, hist: seq<nat>)
  {
    Permutes(b, |hist|) && |hist| <= |c| && forall i :: 0 <= i < |hist| ==> c[i] == hist[b[i]]
  }

  function Swapped(s: seq<nat>, i: nat, j: nat): (r: seq<nat>)
    requires i < |s| && j < |s|
    ensures |r| == |s| && r[i] == s[j] && r[j] == s[i] && forall k :: 0 <= k < |s| && k != i && k != j ==> r[k] == s[k]
  {
    s[i := s[j]][j := s[i]]
  }

  lemma SwapKeeps(c: seq<nat>, b: seq<nat>, hist: seq<nat>, i: nat, j: nat)
    requires Nodes(c, b, hist) && i < |hist| && j < |hist|
    ensures Nodes(Swapped(c, i, j), Swapped(b, i, j), hist)
  {
    hide Rank;
    var d := Swapped(b, i, j);
    forall s | 0 <= s < |hist| ensures Rank(d, |hist|, s) == 1 {
      RankUpdate(b, |hist|, s, i, b[j]);
      RankUpdate(b[i := b[j]], |hist|, s, j, b[i]);
    }
  }

  ghost predicate Falls(c: seq<nat>, from: int, to: int)
  {
    0 <= from && to <= |c| && forall p, q :: from <= p < q < to ==> c[p] >= c[q]
  }

  ghost predicate Within(c: seq<nat>, from: int, to: int, lo: nat, hi: nat)
  {
    0 <= from && to <= |c| && forall p :: from <= p < to ==> lo <= c[p] <= hi
  }

  /** Nothing outside `[from, to)` has changed. */
  ghost predicate Outside(c: seq<nat>, was: seq<nat>, from: int, to: int)
  {
    |c| == |was| && forall p :: 0 <= p < |c| && (p < from || to <= p) ==> c[p] == was[p]
  }

  /** `HUF_swapNodes`. */
  method SwapNodes(count: array<nat>, byte: array<nat>, i: nat, j: nat, ghost hist: seq<nat>)
    requires count != byte && count.Length > 0 && Nodes(count[1..], byte[..], hist) && i < |hist| && j < |hist|
    modifies count, byte
    ensures count[1..] == Swapped(old(count[1..]), i, j) && byte[..] == Swapped(old(byte[..]), i, j)
    ensures Nodes(count[1..], byte[..], hist)
  {
    hide Nodes;
    NodesRoom(count[1..], byte[..], hist);
    SwapKeeps(count[1..], byte[..], hist, i, j);
    ghost var c, b := count[1..], byte[..];
    assert c[i] == count[1 + i] && c[j] == count[1 + j];
    count[1 + i], count[1 + j] := count[1 + j], count[1 + i];
    byte[i], byte[j] := byte[j], byte[i];
    assert count[1..] == Swapped(c, i, j);
    assert byte[..] == Swapped(b, i, j);
  }

  lemma NodesRoom(c: seq<nat>, b: seq<nat>, hist: seq<nat>)
    requires Nodes(c, b, hist)
    ensures |hist| <= |c| && |hist| <= |b|
  {}

  // ----- sorting a range -----

  /** `HUF_insertionSort` of `[low, high]`. */
  method InsertionSort(count: array<nat>, byte: array<nat>, low: nat, high: int, ghost hist: seq<nat>, ghost lo: nat, ghost hi: nat)
    requires count != byte && count.Length > 0 && Nodes(count[1..], byte[..], hist) && -1 <= high < |hist|
    requires Within(count[1..], low, high + 1, lo, hi)
    modifies count, byte
    ensures Nodes(count[1..], byte[..], hist) && Within(count[1..], low, high + 1, lo, hi) && Falls(count[1..], low, high + 1)
    ensures Outside(count[1..], old(count[1..]), low, high + 1)
  {
    hide Nodes;
    ghost var was := count[1..];
    NodesRoom(count[1..], byte[..], hist);
    var size := high - low + 1;
    var i := 1;
    while i < size
      invariant 1 <= i && (size >= 1 ==> i <= size)
      invariant Nodes(count[1..], byte[..], hist) && Within(count[1..], low, high + 1, lo, hi)
      invariant Falls(count[1..], low, low + (if i <= size then i else size)) && Outside(count[1..], was, low, high + 1)
    {
      Insert(count, byte, low, i, high, hist, lo, hi);
      i := i + 1;
    }
  }

  /** The hole left while a node is moved down, filled with that node again. */
  ghost predicate Filled(c: seq<nat>, b: seq<nat>, at: nat, keyCount: nat, keyByte: nat, hist: seq<nat>)
  {
    at < |hist| && |hist| <= |c| && |hist| <= |b| && Nodes(c[at := keyCount], b[at := keyByte], hist)
  }

  lemma ShiftHole(c: seq<nat>, b: seq<nat>, at: nat, keyCount: nat, keyByte: nat, hist: seq<nat>)
    requires Filled(c, b, at, keyCount, keyByte, hist) && at > 0
    ensures Filled(c[at := c[at - 1]], b[at := b[at - 1]], at - 1, keyCount, keyByte, hist)
  {
    hide Nodes;
    SwapKeeps(c[at := keyCount], b[at := keyByte], hist, at - 1, at);
    assert Swapped(c[at := keyCount], at - 1, at) == c[at := c[at - 1]][at - 1 := keyCount];
    assert Swapped(b[at := keyByte], at - 1, at) == b[at := b[at - 1]][at - 1 := keyByte];
  }

  /** Puts node `low + i` where it belongs among those from `low` on. */
  method Insert(count: array<nat>, byte: array<nat>, low: nat, i: nat, high: nat, ghost hist: seq<nat>, ghost lo: nat, ghost hi: nat)
    requires count != byte && count.Length > 0 && Nodes(count[1..], byte[..], hist) && high < |hist|
    requires 1 <= i && low + i <= high && |hist| < count.Length && |hist| <= byte.Length
    requires Within(count[1..], low, high + 1, lo, hi) && Falls(count[1..], low, low + i)
    modifies count, byte
    ensures Nodes(count[1..], byte[..], hist) && Within(count[1..], low, high + 1, lo, hi) && Falls(count[1..], low, low + i + 1)
    ensures Outside(count[1..], old(count[1..]), low, high + 1)
  {
    hide Nodes, Permutes, Filled, Moving, Within, Outside, Falls;
    ghost var was: seq<nat>, wasB: seq<nat> := count[1..], byte[..];
    var keyCount, keyByte := count[1 + low + i], byte[low + i];
    assert was[low + i] == keyCount;
    assert lo <= keyCount <= hi by { InRange(was, low, high + 1, lo, hi, low + i); }
    StartMove(was, wasB, low, i, high, keyCount, keyByte, hist);
    var j: int := i - 1;
    while j >= 0 && count[1 + low + j] < keyCount
      invariant -1 <= j < i && Filled(count[1..], byte[..], low + j + 1, keyCount, keyByte, hist)
      invariant Outside(count[1..], was, low, high + 1) && Within(count[1..], low, high + 1, lo, hi)
      invariant Moving(count[1..], low, low + i, low + j + 1, keyCount)
    {
      ghost var c: seq<nat>, b: seq<nat>, at := count[1..], byte[..], low + j + 1;
      ShiftHole(c, b, at, keyCount, keyByte, hist);
      assert c[at - 1] == count[1 + low + j];
      ShiftRange(c, was, low, i, at, high, keyCount, lo, hi);
      count[1 + low + j + 1] := count[1 + low + j];
      byte[low + j + 1] := byte[low + j];
      assert count[1..] == c[at := c[at - 1]] && byte[..] == b[at := b[at - 1]];
      j := j - 1;
    }
    ghost var c: seq<nat>, b: seq<nat>, at := count[1..], byte[..], low + j + 1;
    assert j >= 0 ==> c[low + j] == count[1 + low + j] >= keyCount;
    FillHole(c, was, b, low, i, at, high, keyCount, keyByte, hist, lo, hi);
    count[1 + low + j + 1] := keyCount;
    byte[low + j + 1] := keyByte;
    assert count[1..] == c[at := keyCount] && byte[..] == b[at := keyByte];
  }

  lemma InRange(c: seq<nat>, from: int, to: int, lo: nat, hi: nat, p: nat)
    requires Within(c, from, to, lo, hi) && from <= p < to
    ensures lo <= c[p] <= hi
  {}

  /** Around the hole at `at` the nodes up to `last` are in order, and those after it
      come after the node that is moved. */
  ghost predicate Moving(c: seq<nat>, low: nat, last: nat, at: nat, keyCount: nat)
  {
    && low <= at <= last < |c|
    && (forall p, q :: low <= p < q <= last && p != at && q != at ==> c[p] >= c[q])
    && forall q :: at < q <= last ==> c[q] < keyCount
  }

  lemma StartMove(c: seq<nat>, b: seq<nat>, low: nat, i: nat, high: nat, keyCount: nat, keyByte: nat, hist: seq<nat>)
    requires Nodes(c, b, hist) && low + i <= high < |hist| <= |c| && |hist| <= |b| && Falls(c, low, low + i)
    requires keyCount == c[low + i] && keyByte == b[low + i]
    ensures Filled(c, b, low + i, keyCount, keyByte, hist) && Moving(c, low, low + i, low + i, keyCount)
    ensures Outside(c, c, low, high + 1)
  {
    hide Nodes;
    assert c[low + i := keyCount] == c && b[low + i := keyByte] == b;
  }

  lemma ShiftRange(c: seq<nat>, was: seq<nat>, low: nat, i: nat, at: nat, high: nat, keyCount: nat, lo: nat, hi: nat)
    requires low < at <= low + i <= high < |c| && Moving(c, low, low + i, at, keyCount) && c[at - 1] < keyCount
    requires Outside(c, was, low, high + 1) && Within(c, low, high + 1, lo, hi)
    ensures var d := c[at := c[at - 1]];
      && Moving(d, low, low + i, at - 1, keyCount) && Outside(d, was, low, high + 1) && Within(d, low, high + 1, lo, hi)
  {}

  lemma FillHole(c: seq<nat>, was: seq<nat>, b: seq<nat>, low: nat, i: nat, at: nat, high: nat, keyCount: nat, keyByte: nat,
                 hist: seq<nat>, lo: nat, hi: nat)
    requires low <= at <= low + i <= high < |c| && Moving(c, low, low + i, at, keyCount) && at < |b|
    requires (at > low ==> c[at - 1] >= keyCount) && lo <= keyCount <= hi
    requires Filled(c, b, at, keyCount, keyByte, hist)
    requires Outside(c, was, low, high + 1) && Within(c, low, high + 1, lo, hi)
    ensures var d := c[at := keyCount];
      && Nodes(d, b[at := keyByte], hist) && Falls(d, low, low + i + 1)
      && Outside(d, was, low, high + 1) && Within(d, low, high + 1, lo, hi)
  {
    hide Nodes;
  }

  /** `HUF_quickSortPartition`. */
  method Partition(count: array<nat>, byte: array<nat>, low: nat, high: nat, ghost hist: seq<nat>, ghost lo: nat, ghost hi: nat)
    returns (idx: nat)
    requires count != byte && count.Length > 0 && Nodes(count[1..], byte[..], hist) && low <= high < |hist|
    requires Within(count[1..], low, high + 1, lo, hi)
    modifies count, byte
    ensures Nodes(count[1..], byte[..], hist) && low <= idx <= high < |count[1..]|
    ensures var pivot := count[1..][idx];
      && lo <= pivot <= hi && Within(count[1..], low, idx, pivot, hi) && Within(count[1..], idx + 1, high + 1, lo, pivot)
    ensures Outside(count[1..], old(count[1..]), low, high + 1)
  {
    hide Nodes;
    ghost var was := count[1..];
    NodesRoom(count[1..], byte[..], hist);
    var pivot := count[1 + high];
    assert was[high] == pivot;
    var i: int := low - 1;
    for j := low to high
      invariant low - 1 <= i < j && Nodes(count[1..], byte[..], hist) && count[1..][high] == pivot
      invariant Within(count[1..], low, i + 1, pivot, hi) && Within(count[1..], i + 1, j, lo, pivot)
      invariant Within(count[1..], j, high + 1, lo, hi) && Outside(count[1..], was, low, high + 1)
    {
      assert count[1..][j] == count[1 + j];
      if count[1 + j] > pivot {
        i := i + 1;
        SwapNodes(count, byte, i, j, hist);
      }
    }
    SwapNodes(count, byte, i + 1, high, hist);
    return i + 1;
  }

  /** What the quicksort has done: the nodes before `low` and after `high` are in
      their places, and the bounds between keep them there. */
  ghost predicate Settled(c: seq<nat>, low0: int, low: int, high: int, high0: int, lo0: nat, lo: nat, hi: nat, hi0: nat)
  {
    && 0 <= low0 <= low <= high + 1 <= high0 + 1 <= |c| && lo0 <= lo <= hi <= hi0
    && Falls(c, low0, low) && Within(c, low0, low, hi, hi0)
    && Within(c, low, high + 1, lo, hi)
    && Falls(c, high + 1, high0 + 1) && Within(c, high + 1, high0 + 1, lo0, lo)
  }

  lemma SettledDone(c: seq<nat>, low0: int, low: int, high: int, high0: int, lo0: nat, lo: nat, hi: nat, hi0: nat)
    requires Settled(c, low0, low, high, high0, lo0, lo, hi, hi0) && high <= low
    ensures Falls(c, low0, high0 + 1) && Within(c, low0, high0 + 1, lo0, hi0)
  {}

  /** The part before the pivot is sorted: only what follows it is left. */
  lemma LeftSettled(c: seq<nat>, was: seq<nat>, low0: int, low: int, idx: int, high: int, high0: int,
                    lo0: nat, lo: nat, pivot: nat, hi: nat, hi0: nat)
    requires Settled(was, low0, low, high, high0, lo0, lo, hi, hi0) && low <= idx <= high && was[idx] == pivot && lo <= pivot <= hi
    requires Within(was, idx + 1, high + 1, lo, pivot)
    requires Outside(c, was, low, idx) && Falls(c, low, idx) && Within(c, low, idx, pivot, hi)
    ensures Settled(c, low0, idx + 1, high, high0, lo0, lo, pivot, hi0)
  {}

  /** ... or the part after it. */
  lemma RightSettled(c: seq<nat>, was: seq<nat>, low0: int, low: int, idx: int, high: int, high0: int,
                     lo0: nat, lo: nat, pivot: nat, hi: nat, hi0: nat)
    requires Settled(was, low0, low, high, high0, lo0, lo, hi, hi0) && low <= idx <= high && was[idx] == pivot && lo <= pivot <= hi
    requires Within(was, low, idx, pivot, hi)
    requires Outside(c, was, idx + 1, high + 1) && Falls(c, idx + 1, high + 1) && Within(c, idx + 1, high + 1, lo, pivot)
    ensures Settled(c, low0, low, idx - 1, high0, lo0, pivot, hi, hi0)
  {}

  lemma OutsideTwice(c: seq<nat>, d: seq<nat>, e: seq<nat>, low: int, high: int, from: int, to: int)
    requires Outside(d, c, from, to) && Outside(e, d, low, high) && from <= low && high <= to
    ensures Outside(e, c, from, to)
  {}

  lemma SettledPart(c: seq<nat>, d: seq<nat>, low0: int, low: int, high: int, high0: int, lo0: nat, lo: nat, hi: nat, hi0: nat)
    requires Settled(c, low0, low, high, high0, lo0, lo, hi, hi0) && Outside(d, c, low, high + 1) && Within(d, low, high + 1, lo, hi)
    ensures Settled(d, low0, low, high, high0, lo0, lo, hi, hi0)
  {}

  lemma WithinThree(c: seq<nat>, low: int, idx: int, high: int, lo: nat, hi: nat)
    requires 0 <= low <= idx <= high < |c| && lo <= c[idx] <= hi
    requires Within(c, low, idx, c[idx], hi) && Within(c, idx + 1, high + 1, lo, c[idx])
    ensures Within(c, low, high + 1, lo, hi)
  {}

  /** `HUF_simpleQuickSort`. */
  method SimpleQuickSort(count: array<nat>, byte: array<nat>, low0: nat, high0: int, ghost hist: seq<nat>, ghost lo0: nat, ghost hi0: nat)
    requires count != byte && count.Length > 0 && Nodes(count[1..], byte[..], hist) && low0 - 1 <= high0 < |hist| && lo0 <= hi0
    requires Within(count[1..], low0, high0 + 1, lo0, hi0)
    modifies count, byte
    ensures Nodes(count[1..], byte[..], hist) && Within(count[1..], low0, high0 + 1, lo0, hi0)
    ensures Falls(count[1..], low0, high0 + 1) && Outside(count[1..], old(count[1..]), low0, high0 + 1)
    decreases high0 - low0 + 1
  {
    hide Nodes, Settled, Within, Falls, Outside;
    if high0 - low0 < 8 {
      InsertionSort(count, byte, low0, high0, hist, lo0, hi0);
      return;
    }
    ghost var was := count[1..];
    var low: nat, high: int := low0, high0;
    ghost var lo, hi := lo0, hi0;
    NodesRoom(was, byte[..], hist);
    SettledStart(was, low0, high0, lo0, hi0);
    while low < high
      invariant low0 <= low <= high + 1 <= high0 + 1 && lo <= hi
      invariant Nodes(count[1..], byte[..], hist) && Outside(count[1..], was, low0, high0 + 1)
      invariant Settled(count[1..], low0, low, high, high0, lo0, lo, hi, hi0)
      decreases high - low
    {
      ghost var before := count[1..];
      SettledWithin(before, low0, low, high, high0, lo0, lo, hi, hi0);
      var idx := Partition(count, byte, low, high, hist, lo, hi);
      ghost var mid := count[1..];
      ghost var pivot := mid[idx];
      WithinThree(mid, low, idx, high, lo, hi);
      SettledPart(before, mid, low0, low, high, high0, lo0, lo, hi, hi0);
      OutsideTwice(was, before, mid, low, high + 1, low0, high0 + 1);
      if idx - low < high - idx {
        SimpleQuickSort(count, byte, low, idx - 1, hist, pivot, hi);
        LeftSettled(count[1..], mid, low0, low, idx, high, high0, lo0, lo, pivot, hi, hi0);
        OutsideTwice(was, mid, count[1..], low, idx, low0, high0 + 1);
        low, hi := idx + 1, pivot;
      } else {
        SimpleQuickSort(count, byte, idx + 1, high, hist, lo, pivot);
        RightSettled(count[1..], mid, low0, low, idx, high, high0, lo0, lo, pivot, hi, hi0);
        OutsideTwice(was, mid, count[1..], idx + 1, high + 1, low0, high0 + 1);
        high, lo := idx - 1, pivot;
      }
    }
    SettledDone(count[1..], low0, low, high, high0, lo0, lo, hi, hi0);
  }

  lemma SettledStart(c: seq<nat>, low0: int, high0: int, lo0: nat, hi0: nat)
    requires 0 <= low0 <= high0 + 1 <= |c| && lo0 <= hi0 && Within(c, low0, high0 + 1, lo0, hi0)
    ensures Settled(c, low0, low0, high0, high0, lo0, lo0, hi0, hi0) && Outside(c, c, low0, high0 + 1)
  {}

  lemma SettledWithin(c: seq<nat>, low0: int, low: int, high: int, high0: int, lo0: nat, lo: nat, hi: nat, hi0: nat)
    requires Settled(c, low0, low, high, high0, lo0, lo, hi, hi0)
    ensures Within(c, low, high + 1, lo, hi)
  {}

  // ----- buckets -----

  const RANK_POSITION_TABLE_SIZE := 192
  const LOG_BUCKETS_BEGIN := 158

  /** `RANK_POSITION_DISTINCT_COUNT_CUTOFF`: 158 and its highest bit. */
  const DISTINCT_COUNT_CUTOFF := 165

  /** `HUF_getIndex`: a bucket for every small count, and one for every power of two
      above. */
  function GetIndex(count: nat): nat
  {
    if count < DISTINCT_COUNT_CUTOFF then count else Highbit(count) + LOG_BUCKETS_BEGIN
  }

  /** The least and the largest count of a bucket. */
  function Least(q: nat): nat { if q <= DISTINCT_COUNT_CUTOFF then q else Pow2(q - LOG_BUCKETS_BEGIN) }
  function Most(q: nat): nat { if q < DISTINCT_COUNT_CUTOFF then q else 2 * Pow2(q - LOG_BUCKETS_BEGIN) - 1 }

  lemma BucketBounds(count: nat, q: nat)
    ensures GetIndex(count) == q <==> Least(q) <= count <= Most(q)
    ensures count < 0x1_0000_0000 ==> GetIndex(count) < RANK_POSITION_TABLE_SIZE - 2
  {
    hide Highbit, Pow2;
    Pow2Values();
    Pow2Wide();
    if count >= DISTINCT_COUNT_CUTOFF {
      HighbitBounds(count);
      Pow2Next(Highbit(count));
      if Highbit(count) >= 32 { Pow2Mono(32, Highbit(count)); }
      if Highbit(count) < 7 { Pow2Mono(Highbit(count) + 1, 7); }
    }
    if q >= DISTINCT_COUNT_CUTOFF {
      if q > DISTINCT_COUNT_CUTOFF { Pow2Mono(8, q - LOG_BUCKETS_BEGIN); }
      Pow2Next(q - LOG_BUCKETS_BEGIN);
      if Least(q) <= count <= Most(q) { HighbitUnique(count, q - LOG_BUCKETS_BEGIN); }
    }
  }

  /** Larger counts are in later buckets. */
  lemma IndexMono(a: nat, b: nat)
    requires a <= b
    ensures GetIndex(a) <= GetIndex(b)
  {
    hide Highbit, Pow2;
    Pow2Values();
    if b >= DISTINCT_COUNT_CUTOFF {
      HighbitBounds(b);
      if a >= DISTINCT_COUNT_CUTOFF { HighbitBounds(a); }
      if Highbit(b) < 7 { Pow2Mono(Highbit(b) + 1, 7); }
      if a >= DISTINCT_COUNT_CUTOFF && Highbit(b) < Highbit(a) { Pow2Mono(Highbit(b) + 1, Highbit(a)); }
    }
  }

  function Indices(hist: seq<nat>): (r: seq<nat>)
    ensures |r| == |hist| && forall s :: 0 <= s < |hist| ==> r[s] == GetIndex(hist[s])
  {
    seq(|hist|, s requires 0 <= s < |hist| => GetIndex(hist[s]))
  }

  /** How many of the first `k` are at least `q`. */
  function Upper(xs: seq<nat>, k: nat, q: nat): (r: nat)
    requires k <= |xs|
    ensures r <= k
  {
    if k == 0 then 0 else Upper(xs, k - 1, q) + (if xs[k - 1] >= q then 1 else 0)
  }

  lemma {:induction false} UpperStep(xs: seq<nat>, k: nat, q: nat)
    requires k <= |xs|
    ensures Upper(xs, k, q) == Upper(xs, k, q + 1) + Rank(xs, k, q)
  {
    if k > 0 { UpperStep(xs, k - 1, q); }
  }

  lemma {:induction false} UpperMono(xs: seq<nat>, k: nat, q: nat, r: nat)
    requires k <= |xs| && q <= r
    ensures Upper(xs, k, r) <= Upper(xs, k, q)
  {
    if k > 0 { UpperMono(xs, k - 1, q, r); }
  }

  lemma {:induction false} UpperNone(xs: seq<nat>, k: nat, q: nat)
    requires k <= |xs| && forall i :: 0 <= i < k ==> xs[i] < q
    ensures Upper(xs, k, q) == 0
  {
    if k > 0 { UpperNone(xs, k - 1, q); }
  }

  /** Where the node of symbol `s` is first put. */
  function Slot(xs: seq<nat>, s: nat): nat
    requires s < |xs|
  {
    Upper(xs, |xs|, xs[s] + 1) + Rank(xs, s, xs[s])
  }

  /** Every bucket has its own range of slots, and every symbol its own slot. */
  lemma SlotRange(xs: seq<nat>, s: nat)
    requires s < |xs|
    ensures Upper(xs, |xs|, xs[s] + 1) <= Slot(xs, s) < Upper(xs, |xs|, xs[s]) <= |xs|
  {
    UpperStep(xs, |xs|, xs[s]);
    RankMono(xs, s, |xs|, xs[s]);
  }

  lemma SlotsApart(xs: seq<nat>, s: nat, t: nat)
    requires s < t < |xs|
    ensures Slot(xs, s) != Slot(xs, t)
  {
    if xs[s] == xs[t] {
      RankMono(xs, s, t, xs[s]);
    } else {
      SlotRange(xs, s);
      SlotRange(xs, t);
      if xs[s] < xs[t] { UpperMono(xs, |xs|, xs[s] + 1, xs[t]); } else { UpperMono(xs, |xs|, xs[t] + 1, xs[s]); }
    }
  }

  /** Counts the symbols of each bucket, and then those of the buckets above. */
  method RankPositions(hist: seq<nat>) returns (base: array<nat>, curr: array<nat>)
    requires forall s :: 0 <= s < |hist| ==> hist[s] < 0x1_0000_0000
    ensures fresh(base) && fresh(curr) && base != curr && base.Length == curr.Length == RANK_POSITION_TABLE_SIZE
    ensures forall r :: 0 <= r < base.Length ==> base[r] == Upper(Indices(hist), |hist|, r)
    ensures forall r :: 0 <= r < curr.Length - 1 ==> curr[r] == base[r]
  {
    hide Rank, Upper, GetIndex, Highbit;
    ghost var xs := Indices(hist);
    base := new nat[RANK_POSITION_TABLE_SIZE](_ => 0);
    curr := new nat[RANK_POSITION_TABLE_SIZE](_ => 0);
    RankStart(xs);
    for n := 0 to |hist|
      invariant forall r :: 0 <= r < base.Length ==> base[r] == Rank(xs, n, r)
    {
      BucketBounds(hist[n], GetIndex(hist[n]));
      RankNext(xs, n);
      base[GetIndex(hist[n])] := base[GetIndex(hist[n])] + 1;
    }
    var last := RANK_POSITION_TABLE_SIZE - 1;
    forall s | 0 <= s < |xs| ensures xs[s] < last - 1 { BucketBounds(hist[s], 0); }
    UpperNone(xs, |xs|, last);
    RankNone(xs, |xs|, last);
    for n := last downto 0
      invariant base.Length == curr.Length == RANK_POSITION_TABLE_SIZE
      invariant forall r :: n <= r < base.Length ==> base[r] == Upper(xs, |xs|, r)
      invariant forall r :: 0 <= r < n ==> base[r] == Rank(xs, |xs|, r)
      invariant forall r :: n <= r < curr.Length - 1 ==> curr[r] == base[r]
    {
      UpperStep(xs, |xs|, n);
      base[n] := base[n] + base[n + 1];
      curr[n] := base[n];
    }
  }

  /** The slots filled so far, as symbols; `|xs|` stands for none. */
  ghost predicate Filling(g: seq<nat>, xs: seq<nat>, n: nat)
  {
    && |g| == |xs| && n <= |xs|
    && (forall i :: 0 <= i < |g| ==> g[i] == |xs| || (g[i] < n && Slot(xs, g[i]) == i))
    && (forall s :: 0 <= s < |xs| ==> Rank(g, |g|, s) == if s < n then 1 else 0)
    && Rank(g, |g|, |xs|) == |xs| - n
  }

  lemma FillStart(xs: seq<nat>)
    ensures Filling(seq(|xs|, _ => |xs|), xs, 0)
  {
    hide Slot;
    var g := seq(|xs|, _ => |xs|);
    forall s | 0 <= s < |xs| ensures Rank(g, |g|, s) == 0 { RankNone(g, |g|, s); }
    RankAll(|xs|, |xs|, |xs|);
  }

  lemma FillNext(g: seq<nat>, xs: seq<nat>, n: nat)
    requires Filling(g, xs, n) && n < |xs|
    ensures Slot(xs, n) < |g| && g[Slot(xs, n)] == |xs| && Filling(g[Slot(xs, n) := n], xs, n + 1)
  {
    hide Slot, Rank;
    SlotRange(xs, n);
    var at := Slot(xs, n);
    if g[at] != |xs| { SlotsApart(xs, g[at], n); }
    var h: seq<nat> := g[at := n];
    assert |h| == |g|;
    forall s | 0 <= s < |xs| ensures Rank(h, |h|, s) == if s < n + 1 then 1 else 0 {
      RankUpdate(g, |g|, s, at, n);
    }
    RankUpdate(g, |g|, |xs|, at, n);
  }

  /** Puts every symbol into its bucket. */
  method Place(count: array<nat>, byte: array<nat>, hist: seq<nat>, ghost base: array<nat>, curr: array<nat>)
    requires count != byte && curr != count && curr != byte && base != count && base != byte && base != curr
    requires base.Length == curr.Length == RANK_POSITION_TABLE_SIZE && |hist| < count.Length && |hist| <= byte.Length
    requires forall s :: 0 <= s < |hist| ==> hist[s] < 0x1_0000_0000
    requires forall r :: 0 <= r < base.Length ==> base[r] == Upper(Indices(hist), |hist|, r)
    requires forall r :: 0 <= r < curr.Length - 1 ==> curr[r] == base[r]
    modifies count, byte, curr
    ensures Nodes(count[1..], byte[..], hist) && Bucketed(count[1..], hist)
    ensures forall r :: 1 <= r < curr.Length - 1 ==> curr[r] == Upper(Indices(hist), |hist|, r - 1)
  {
    hide Rank, Upper, GetIndex, Highbit, Slot, Filling, Permutes;
    ghost var xs := Indices(hist);
    ghost var g: seq<nat> := seq(|xs|, _ => |xs|);
    FillStart(xs);
    RankStart(xs);
    for n := 0 to |hist|
      invariant Filling(g, xs, n) && |g| == |hist|
      invariant forall r :: 1 <= r < curr.Length - 1 ==> curr[r] == Upper(xs, |xs|, r) + Rank(xs, n, r - 1)
      invariant forall i :: 0 <= i < |g| && g[i] < |xs| ==> byte[i] == g[i] && count[1 + i] == hist[g[i]]
    {
      BucketBounds(hist[n], 0);
      SlotIs(xs, n);
      FillNext(g, xs, n);
      RankNext(xs, n);
      var r := GetIndex(hist[n]) + 1;
      var pos := curr[r];
      curr[r] := curr[r] + 1;
      count[1 + pos] := hist[n];
      byte[pos] := n;
      g := g[pos := n];
    }
    AllFilled(g, xs);
    PlacedAll(count[1..], byte[..], hist, g);
    forall r | 1 <= r < curr.Length - 1 ensures curr[r] == Upper(xs, |xs|, r - 1) { UpperStep(xs, |xs|, r - 1); }
  }

  lemma SlotIs(xs: seq<nat>, n: nat)
    requires n < |xs|
    ensures Slot(xs, n) == Upper(xs, |xs|, xs[n] + 1) + Rank(xs, n, xs[n])
  {}

  lemma AllFilled(g: seq<nat>, xs: seq<nat>)
    requires Filling(g, xs, |xs|)
    ensures forall i :: 0 <= i < |g| ==> g[i] < |xs| && Slot(xs, g[i]) == i
    ensures forall s :: 0 <= s < |xs| ==> Rank(g, |g|, s) == 1
  {
    hide Slot, Rank;
    RankNone(g, |g|, |xs|);
  }

  lemma PlacedAll(c: seq<nat>, b: seq<nat>, hist: seq<nat>, g: seq<nat>)
    requires |g| == |hist| && |hist| <= |c| && |hist| <= |b|
    requires forall i :: 0 <= i < |g| ==> g[i] < |hist| && Slot(Indices(hist), g[i]) == i && b[i] == g[i] && c[i] == hist[g[i]]
    requires forall s :: 0 <= s < |hist| ==> Rank(g, |g|, s) == 1
    ensures Nodes(c, b, hist) && Bucketed(c, hist)
  {
    hide Slot, Rank, Upper, GetIndex;
    var xs := Indices(hist);
    forall s | 0 <= s < |hist| ensures Rank(b, |hist|, s) == 1 { RankSame(b, g, |hist|, s); }
    forall i: nat | i < |hist| ensures InBucket(xs, i, GetIndex(c[i])) { SlotRange(xs, g[i]); }
  }

  /** Position `i` belongs to bucket `q`. */
  ghost predicate InBucket(xs: seq<nat>, i: nat, q: nat)
  {
    Upper(xs, |xs|, q + 1) <= i < Upper(xs, |xs|, q)
  }

  /** Every node is in its bucket's range. */
  ghost predicate Bucketed(c: seq<nat>, hist: seq<nat>)
  {
    |hist| <= |c| && forall i: nat :: i < |hist| ==> InBucket(Indices(hist), i, GetIndex(c[i]))
  }

  /** The ranges of the buckets follow one another, the larger counts first. */
  lemma BucketsApart(xs: seq<nat>, i: nat, j: nat, p: nat, q: nat)
    requires InBucket(xs, i, p) && InBucket(xs, j, q) && i <= j
    ensures p >= q
  {
    hide Upper;
    if p < q { UpperMono(xs, |xs|, p + 1, q); }
  }

  /** The buckets of small counts, and those below `r`, are in order inside. */
  ghost predicate OrderedBelow(c: seq<nat>, n: nat, r: nat)
  {
    n <= |c| && forall i, j :: 0 <= i < j < n && SameBucketBelow(c[i], c[j], r) ==> c[i] >= c[j]
  }

  ghost predicate SameBucketBelow(a: nat, b: nat, r: nat)
  {
    GetIndex(a) == GetIndex(b) && (GetIndex(a) < DISTINCT_COUNT_CUTOFF || GetIndex(a) + 1 < r)
  }

  lemma OrderedStart(c: seq<nat>, n: nat)
    requires n <= |c|
    ensures OrderedBelow(c, n, DISTINCT_COUNT_CUTOFF)
  {
    forall i, j | 0 <= i < j < n && SameBucketBelow(c[i], c[j], DISTINCT_COUNT_CUTOFF) ensures c[i] >= c[j] {
      BucketBounds(c[i], GetIndex(c[i]));
      BucketBounds(c[j], GetIndex(c[j]));
    }
  }

  lemma RangeBounds(c: seq<nat>, hist: seq<nat>, r: nat)
    requires Bucketed(c, hist) && r > 0
    ensures Upper(Indices(hist), |hist|, r) <= Upper(Indices(hist), |hist|, r - 1) <= |hist|
    ensures Within(c, Upper(Indices(hist), |hist|, r), Upper(Indices(hist), |hist|, r - 1), Least(r - 1), Most(r - 1))
    ensures Least(r - 1) <= Most(r - 1)
  {
    hide Upper, GetIndex, Least, Most;
    var xs := Indices(hist);
    UpperMono(xs, |xs|, r - 1, r);
    forall i: nat | Upper(xs, |hist|, r) <= i < Upper(xs, |hist|, r - 1) ensures Least(r - 1) <= c[i] <= Most(r - 1) {
      assert InBucket(xs, i, GetIndex(c[i])) && InBucket(xs, i, r - 1);
      BucketsApart(xs, i, i, GetIndex(c[i]), r - 1);
      BucketsApart(xs, i, i, r - 1, GetIndex(c[i]));
      BucketBounds(c[i], r - 1);
    }
    LeastMost(r - 1);
  }

  lemma LeastMost(q: nat)
    ensures Least(q) <= Most(q)
  {
    Pow2Values();
  }

  /** Sorting one bucket keeps every node in its bucket, and orders that one. */
  lemma BucketSorted(c: seq<nat>, d: seq<nat>, hist: seq<nat>, r: nat)
    requires Bucketed(c, hist) && OrderedBelow(c, |hist|, r) && r > 0
    requires var xs := Indices(hist); var from, to := Upper(xs, |hist|, r), Upper(xs, |hist|, r - 1);
      Outside(d, c, from, to) && Within(d, from, to, Least(r - 1), Most(r - 1)) && Falls(d, from, to)
    ensures Bucketed(d, hist) && OrderedBelow(d, |hist|, r + 1)
  {
    hide Upper, GetIndex, Least, Most;
    var xs := Indices(hist);
    var from, to := Upper(xs, |hist|, r), Upper(xs, |hist|, r - 1);
    forall i: nat | i < |hist| ensures InBucket(xs, i, GetIndex(d[i])) {
      if from <= i < to { BucketBounds(d[i], r - 1); } else { assert InBucket(xs, i, GetIndex(c[i])); }
    }
    forall i, j | 0 <= i < j < |hist| && SameBucketBelow(d[i], d[j], r + 1) ensures d[i] >= d[j] {
      assert InBucket(xs, i, GetIndex(d[i])) && InBucket(xs, j, GetIndex(d[j]));
      if GetIndex(d[i]) != r - 1 {
        if from <= i < to { BucketBounds(d[i], r - 1); }
        if from <= j < to { BucketBounds(d[j], r - 1); }
      }
    }
  }

  /** Buckets in order, each in order inside, are all in order. */
  lemma AllOrdered(c: seq<nat>, hist: seq<nat>)
    requires Bucketed(c, hist) && OrderedBelow(c, |hist|, RANK_POSITION_TABLE_SIZE - 1)
    requires forall i :: 0 <= i < |hist| ==> c[i] < 0x1_0000_0000
    ensures Falls(c, 0, |hist|)
  {
    hide Upper, GetIndex;
    var xs := Indices(hist);
    forall i: nat, j: nat | i < j < |hist| ensures c[i] >= c[j] {
      assert InBucket(xs, i, GetIndex(c[i])) && InBucket(xs, j, GetIndex(c[j]));
      BucketsApart(xs, i, j, GetIndex(c[i]), GetIndex(c[j]));
      BucketBounds(c[i], 0);
      if c[i] < c[j] { IndexMono(c[i], c[j]); }
    }
  }

  lemma CountsFit(c: seq<nat>, b: seq<nat>, hist: seq<nat>)
    requires Nodes(c, b, hist) && forall s :: 0 <= s < |hist| ==> hist[s] < 0x1_0000_0000
    ensures forall i :: 0 <= i < |hist| ==> c[i] < 0x1_0000_0000
  {}

  /** `HUF_sort`: the nodes of all symbols, by falling count. */
  method Sort(count: array<nat>, byte: array<nat>, hist: seq<nat>)
    requires count != byte && 0 < |hist| < count.Length && |hist| <= byte.Length
    requires forall s :: 0 <= s < |hist| ==> hist[s] < 0x1_0000_0000
    modifies count, byte
    ensures Nodes(count[1..], byte[..], hist) && Falls(count[1..], 0, |hist|)
  {
    hide Nodes, Upper, GetIndex, Least, Most, Within, Falls, Outside, Bucketed, OrderedBelow;
    ghost var xs := Indices(hist);
    var base, curr := RankPositions(hist);
    Place(count, byte, hist, base, curr);
    OrderedStart(count[1..], |hist|);
    for n := DISTINCT_COUNT_CUTOFF to RANK_POSITION_TABLE_SIZE - 1
      invariant Nodes(count[1..], byte[..], hist) && Bucketed(count[1..], hist) && OrderedBelow(count[1..], |hist|, n)
      invariant forall r :: 0 <= r < base.Length ==> base[r] == Upper(xs, |hist|, r)
      invariant forall r :: 1 <= r < curr.Length - 1 ==> curr[r] == Upper(xs, |hist|, r - 1)
    {
      ghost var c := count[1..];
      RangeBounds(c, hist, n);
      var bucketSize := curr[n] - base[n];
      var bucketStartIdx := base[n];
      if bucketSize > 1 {
        SimpleQuickSort(count, byte, bucketStartIdx, bucketStartIdx + bucketSize - 1, hist, Least(n - 1), Most(n - 1));
      } else {
        SmallRange(c, base[n], curr[n]);
      }
      BucketSorted(c, count[1..], hist, n);
    }
    CountsFit(count[1..], byte[..], hist);
    AllOrdered(count[1..], hist);
  }

  lemma SmallRange(c: seq<nat>, from: nat, to: nat)
    requires from <= to <= from + 1 && to <= |c|
    ensures Falls(c, from, to) && Outside(c, c, from, to)
  {}
}
