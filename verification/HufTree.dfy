/** `HUF_buildTree`: the two-queue Huffman construction.  The node table is held as
    one array per field; nodes below `STARTNODE` are symbols, sorted by falling
    count, the others are made by merging. */
module HufTree {
  import opened Bits
  import opened Counting
  import opened Kraft
  import opened HufOptimal
  import opened HufHeight

  const STARTNODE := 256
  const NODES := 2 * STARTNODE - 1

  /** Marks a node not made yet. */
  const UNMADE := 0x4000_0000

  /** Stands before the first symbol. */
  const BARRIER := 0x8000_0000

  function Total(ws: seq<nat>): nat { SumOf(ws, |ws|) }

  lemma TotalAppend(ws: seq<nat>, vs: seq<nat>)
    ensures Total(ws + vs) == Total(ws) + Total(vs)
  {
    SumOfAppend(ws, vs, |vs|);
  }

  lemma TotalMember(ws: seq<nat>, i: nat)
    requires i < |ws|
    ensures ws[i] <= Total(ws)
  {
    SumOfMember(ws, |ws|, i);
  }

  lemma TotalSplit(x: seq<nat>, a: nat, b: nat, y: seq<nat>)
    ensures Total(x + [a, b] + y) == Total(x + y + [a + b])
  {
    hide Total;
    TotalAppend(x + [a, b], y);
    TotalAppend(x, [a, b]);
    TotalAppend(x + y, [a + b]);
    TotalAppend(x, y);
    TotalShort(a, b);
  }

  lemma TotalShort(a: nat, b: nat)
    ensures Total([a, b]) == a + b == Total([a + b])
  {
    TotalOne(a);
    TotalOne(a + b);
    TotalOne(b);
    TotalAppend([a], [b]);
    assert [a] + [b] == [a, b];
  }

  lemma TotalOne(a: nat)
    ensures Total([a]) == a
  {
    assert SumOf([a], 1) == SumOf([a], 0) + [a][0];
  }

  // ----- the forest after `k` merges -----

  /** Of `m` symbols, `a` have a parent after `k` merges; so do `2k - a` of the
      `k` nodes made. */
  ghost predicate Mark(m: nat, a: nat, k: nat)
  {
    a <= m && k <= a <= 2 * k && 2 * k - a <= k
  }

  /** The values of the nodes without a parent. */
  function Roots(vals: seq<nat>, m: nat, a: nat, k: nat): (r: seq<nat>)
    requires Mark(m, a, k) && m <= STARTNODE && STARTNODE + k <= |vals|
    ensures |r| == m - k
  {
    vals[..m - a] + vals[STARTNODE + 2 * k - a..STARTNODE + k]
  }

  /** Merge number `k` joins two roots next to each other in `Roots`: the last
      symbols, the first made nodes, or one of each. */
  ghost predicate Joins(m: nat, a: nat, b: nat, k: nat)
  {
    && Mark(m, a, k) && Mark(m, b, k + 1)
    && a <= b <= a + 2 && k + 2 <= b && m <= STARTNODE
  }

  /** They are two lightest ones, and of equally light ones made nodes come first. */
  ghost predicate Merges(count: seq<nat>, m: nat, a: nat, b: nat, k: nat)
  {
    && Joins(m, a, b, k) && STARTNODE + k < |count| && SymbolsLighter(count, m, a, b, k)
    && var roots := Roots(count, m, a, k);
      && Lightest(roots, m - b)
      && count[STARTNODE + k] == roots[m - b] + roots[m - b + 1]
  }

  /** A symbol is joined only if it is lighter than every made node that is left. */
  ghost predicate SymbolsLighter(count: seq<nat>, m: nat, a: nat, b: nat, k: nat)
    requires Joins(m, a, b, k) && STARTNODE + k <= |count|
  {
    var left := STARTNODE + 2 * k + 2 - b;
    b > a ==> forall i :: left <= i < STARTNODE + k ==> count[m - b] < count[i]
  }

  /** `used[k]` symbols have a parent after `k` merges. */
  ghost predicate Traced(count: seq<nat>, m: nat, used: seq<nat>)
  {
    && |used| > 0 && used[0] == 0
    && forall k :: 0 <= k < |used| - 1 ==> Merges(count, m, used[k], used[k + 1], k)
  }

  /** The nodes joined by merge `k` have the node made by it as their parent. */
  ghost predicate Adopts(parent: seq<nat>, m: nat, a: nat, b: nat, k: nat)
  {
    && Joins(m, a, b, k) && STARTNODE + k <= |parent|
    && (forall i :: m - b <= i < m - a ==> parent[i] == STARTNODE + k)
    && (forall j :: STARTNODE + 2 * k - a <= j < STARTNODE + 2 * k + 2 - b ==> parent[j] == STARTNODE + k)
  }

  ghost predicate Adopted(parent: seq<nat>, m: nat, used: seq<nat>)
  {
    forall k :: 0 <= k < |used| - 1 ==> Adopts(parent, m, used[k], used[k + 1], k)
  }

  lemma RootsSplit(vals: seq<nat>, m: nat, a: nat, b: nat, k: nat)
    requires Joins(m, a, b, k) && STARTNODE + k < |vals|
    ensures var roots, p := Roots(vals, m, a, k), m - b;
            && roots == roots[..p] + [roots[p], roots[p + 1]] + roots[p + 2..]
            && Roots(vals, m, b, k + 1) == roots[..p] + roots[p + 2..] + [vals[STARTNODE + k]]
  {
    var roots, p := Roots(vals, m, a, k), m - b;
    assert roots[..p] == vals[..p];
    var lo := STARTNODE + 2 * k + 2 - b;
    assert roots[p + 2..] == vals[lo..STARTNODE + k];
    assert vals[lo..STARTNODE + k + 1] == vals[lo..STARTNODE + k] + [vals[STARTNODE + k]];
  }

  lemma SameMerge(count: seq<nat>, after: seq<nat>, m: nat, a: nat, b: nat, k: nat)
    requires Merges(count, m, a, b, k) && |after| == |count|
    requires forall i :: 0 <= i <= STARTNODE + k ==> after[i] == count[i]
    ensures Merges(after, m, a, b, k)
  {
    assert after[..m - a] == count[..m - a];
    assert after[STARTNODE + 2 * k - a..STARTNODE + k] == count[STARTNODE + 2 * k - a..STARTNODE + k];
  }

  // ----- from the last merge back to the first: depth, cost, Kraft sum -----

  /** A root of the whole tree at depth 0, and children one below their parent. */
  ghost predicate Depths(depth: seq<nat>, m: nat, used: seq<nat>)
  {
    && |used| == m >= 2 && m <= STARTNODE && STARTNODE + m - 2 < |depth| && depth[STARTNODE + m - 2] == 0
    && forall k :: 0 <= k < m - 1 ==> Below(depth, m, used[k], used[k + 1], k)
  }

  ghost predicate Below(depth: seq<nat>, m: nat, a: nat, b: nat, k: nat)
  {
    && Joins(m, a, b, k) && STARTNODE + k < |depth|
    && var roots := Roots(depth, m, a, k);
      roots[m - b] == depth[STARTNODE + k] + 1 == roots[m - b + 1]
  }

  lemma LastRoots(vals: seq<nat>, m: nat, a: nat)
    requires 2 <= m <= STARTNODE && Mark(m, a, m - 1) && STARTNODE + m - 1 <= |vals| && m <= a
    ensures Roots(vals, m, a, m - 1) == [vals[STARTNODE + m - 2]]
  {}

  /** Before every merge, the final depths are a best code for the roots. */
  lemma {:induction false} BestFrom(count: seq<nat>, depth: seq<nat>, m: nat, used: seq<nat>, k: nat)
    requires Traced(count, m, used) && Depths(depth, m, used) && |count| == |depth| && k < m
    ensures Mark(m, used[k], k) && Best(Roots(count, m, used[k], k), Roots(depth, m, used[k], k))
    decreases m - k
  {
    hide Best, Lightest, Roots;
    if k == m - 1 {
      assert Merges(count, m, used[k - 1], used[k], k - 1);
      LastRoots(count, m, used[k]);
      LastRoots(depth, m, used[k]);
      BestSingle(count[STARTNODE + m - 2]);
    } else {
      assert Merges(count, m, used[k], used[k + 1], k);
      assert Below(depth, m, used[k], used[k + 1], k);
      BestFrom(count, depth, m, used, k + 1);
      var a, b := used[k], used[k + 1];
      RootsSplit(count, m, a, b, k);
      RootsSplit(depth, m, a, b, k);
      var w, d, p := Roots(count, m, a, k), Roots(depth, m, a, k), m - b;
      BestSplit(w[..p], w[p], w[p + 1], w[p + 2..], d[..p], depth[STARTNODE + k], d[p + 2..]);
    }
  }

  /** ... and fill the code space. */
  lemma {:induction false} FullFrom(depth: seq<nat>, m: nat, used: seq<nat>, k: nat, unit: nat)
    requires Depths(depth, m, used) && k < m && forall i :: STARTNODE <= i < STARTNODE + m - 1 ==> depth[i] < unit
    ensures Mark(m, used[k], k)
    ensures var d := Roots(depth, m, used[k], k); Sum(d, |d|, unit) == Pow2(unit)
    decreases m - k
  {
    hide Sum, Pow2, Roots;
    if k == m - 1 {
      assert Below(depth, m, used[k - 1], used[k], k - 1);
      LastRoots(depth, m, used[k]);
      SumEmptyWord(unit);
    } else {
      assert Below(depth, m, used[k], used[k + 1], k);
      FullFrom(depth, m, used, k + 1, unit);
      RootsSplit(depth, m, used[k], used[k + 1], k);
      var d, p := Roots(depth, m, used[k], k), m - used[k + 1];
      SplitSum(d[..p], depth[STARTNODE + k], d[p + 2..], unit);
    }
  }

  // ----- the counts determine the lengths -----

  /** Depths that merging as described gives. */
  ghost predicate Grown(count: seq<nat>, depth: seq<nat>, m: nat)
  {
    exists used: seq<nat> :: Traced(count, m, used) && Depths(depth, m, used)
  }

  /** Of two ways to go on, neither takes more symbols than the other. */
  lemma OneChoice(count: seq<nat>, after: seq<nat>, m: nat, a: nat, b: nat, c: nat, k: nat)
    requires Merges(count, m, a, b, k) && Merges(after, m, a, c, k) && |count| == |after|
    requires Roots(count, m, a, k) == Roots(after, m, a, k)
    ensures c <= b
  {
    hide Roots, Lightest, SymbolsLighter;
    if c > b {
      SymbolLighter(after, m, a, b, c, k);
      NodeLighter(count, m, a, b, c, k);
    }
  }

  lemma SymbolLighter(count: seq<nat>, m: nat, a: nat, b: nat, c: nat, k: nat)
    requires Merges(count, m, a, c, k) && Joins(m, a, b, k) && c > b
    ensures var r := Roots(count, m, a, k); r[m - c] < r[m - b + 1]
  {
    RootsAt(count, m, a, k, m - b + 1);
  }

  lemma NodeLighter(count: seq<nat>, m: nat, a: nat, b: nat, c: nat, k: nat)
    requires Merges(count, m, a, b, k) && Joins(m, a, c, k) && c > b
    ensures var r := Roots(count, m, a, k); r[m - b + 1] <= r[m - c]
  {
    hide Roots;
  }

  lemma {:induction false} SameTrace(c: seq<nat>, d: seq<nat>, m: nat, used: seq<nat>, others: seq<nat>, k: nat)
    requires Traced(c, m, used) && Traced(d, m, others) && k < |used| == |others| && |c| == |d| && m <= STARTNODE
    requires STARTNODE + k <= |c| && c[..m] == d[..m]
    ensures used[k] == others[k] && Mark(m, used[k], k) && Roots(c, m, used[k], k) == Roots(d, m, used[k], k)
    decreases k
  {
    hide Merges, Roots;
    if k == 0 {
      AllRoots(c, m, c, used);
      AllRoots(d, m, d, others);
    } else {
      SameTrace(c, d, m, used, others, k - 1);
      assert Merges(c, m, used[k - 1], used[k], k - 1) && Merges(d, m, used[k - 1], others[k], k - 1);
      OneChoice(c, d, m, used[k - 1], used[k], others[k], k - 1);
      OneChoice(d, c, m, used[k - 1], others[k], used[k], k - 1);
      SameNext(c, d, m, used[k - 1], used[k], k - 1);
    }
  }

  lemma SameNext(c: seq<nat>, d: seq<nat>, m: nat, a: nat, b: nat, k: nat)
    requires Merges(c, m, a, b, k) && Merges(d, m, a, b, k) && |c| == |d| && Roots(c, m, a, k) == Roots(d, m, a, k)
    ensures Mark(m, b, k + 1) && Roots(c, m, b, k + 1) == Roots(d, m, b, k + 1)
  {
    RootsSplit(c, m, a, b, k);
    RootsSplit(d, m, a, b, k);
  }

  lemma {:induction false} SameDepths(c: seq<nat>, d: seq<nat>, m: nat, used: seq<nat>, k: nat)
    requires Depths(c, m, used) && Depths(d, m, used) && |c| == |d| && k < m && Mark(m, used[k], k)
    ensures Roots(c, m, used[k], k) == Roots(d, m, used[k], k)
    decreases m - k
  {
    if k == m - 1 {
      assert Below(c, m, used[k - 1], used[k], k - 1);
      LastRoots(c, m, used[k]);
      LastRoots(d, m, used[k]);
    } else {
      assert Below(c, m, used[k], used[k + 1], k) && Below(d, m, used[k], used[k + 1], k);
      SameDepths(c, d, m, used, k + 1);
      RootsBack(c, d, m, used[k], used[k + 1], k);
    }
  }

  lemma RootsBack(c: seq<nat>, d: seq<nat>, m: nat, a: nat, b: nat, k: nat)
    requires Below(c, m, a, b, k) && Below(d, m, a, b, k) && |c| == |d| && Roots(c, m, b, k + 1) == Roots(d, m, b, k + 1)
    ensures Roots(c, m, a, k) == Roots(d, m, a, k)
  {
    hide Roots;
    SplitAgain(c, m, a, b, k);
    SplitAgain(d, m, a, b, k);
  }

  lemma SplitAgain(depth: seq<nat>, m: nat, a: nat, b: nat, k: nat)
    requires Below(depth, m, a, b, k)
    ensures var e, p := Roots(depth, m, b, k + 1), m - b; var x := e[|e| - 1] + 1;
      |e| == m - k - 1 && Roots(depth, m, a, k) == e[..p] + [x, x] + e[p..|e| - 1]
  {
    hide Roots;
    RootsSplit(depth, m, a, b, k);
    var r, e, p := Roots(depth, m, a, k), Roots(depth, m, b, k + 1), m - b;
    assert e == r[..p] + r[p + 2..] + [depth[STARTNODE + k]];
    assert e[..p] == r[..p] && e[p..|e| - 1] == r[p + 2..];
  }

  /** Nothing but the counts decides which of the best codes is built. */
  lemma LengthsDetermined(c: seq<nat>, cDepth: seq<nat>, d: seq<nat>, dDepth: seq<nat>, m: nat)
    requires Grown(c, cDepth, m) && Grown(d, dDepth, m) && |c| == |d| == |cDepth| == |dDepth| == NODES && 2 <= m <= STARTNODE
    requires c[..m] == d[..m]
    ensures cDepth[..m] == dDepth[..m]
  {
    hide Traced, Depths, Roots, Mark;
    var used: seq<nat> :| Traced(c, m, used) && Depths(cDepth, m, used);
    var others: seq<nat> :| Traced(d, m, others) && Depths(dDepth, m, others);
    DepthsLength(cDepth, m, used);
    DepthsLength(dDepth, m, others);
    forall k | 0 <= k < m ensures used[k] == others[k] { SameTrace(c, d, m, used, others, k); }
    assert used == others;
    SameTrace(c, d, m, used, others, 0);
    SameDepths(cDepth, dDepth, m, used, 0);
    AllRoots(cDepth, m, c, used);
    AllRoots(dDepth, m, c, used);
  }

  lemma DepthsLength(depth: seq<nat>, m: nat, used: seq<nat>)
    requires Depths(depth, m, used)
    ensures |used| == m
  {}

  lemma AllRoots(depth: seq<nat>, m: nat, count: seq<nat>, used: seq<nat>)
    requires Traced(count, m, used) && m <= STARTNODE <= |depth|
    ensures Mark(m, used[0], 0) && Roots(depth, m, used[0], 0) == depth[..m]
  {}

  // ----- making the parents -----

  ghost predicate Falling(count: seq<nat>, m: nat)
  {
    m <= |count| && forall i, j :: 0 <= i <= j < m ==> count[i] >= count[j]
  }

  ghost predicate RisingFrom(count: seq<nat>, from: nat, to: nat)
  {
    to <= |count| && forall i, j :: from <= i <= j < to ==> count[i] <= count[j]
  }

  ghost predicate AtLeast(ws: seq<nat>, low: nat)
  {
    forall i :: 0 <= i < |ws| ==> ws[i] >= low
  }

  /** Roots are consumed in order. */
  ghost predicate Ordered(used: seq<nat>)
    requires |used| > 0
  {
    var k := |used| - 1;
    forall j :: 0 <= j <= k ==> used[j] <= used[k] && 2 * j - used[j] <= 2 * k - used[k]
  }

  /** What the merging loop keeps.  No root is lighter than `low`, and the last node
      made weighs at most twice that, so that the nodes are made by rising count. */
  ghost predicate Forest(count: seq<nat>, parent: seq<nat>, m: nat, used: seq<nat>, low: nat)
  {
    && 2 <= m <= STARTNODE && |count| == |parent| == NODES && 0 < |used| <= m
    && Falling(count, m) && Traced(count, m, used) && Adopted(parent, m, used) && Ordered(used)
    && var k := |used| - 1;
      && Mark(m, used[k], k) && RisingFrom(count, STARTNODE, STARTNODE + k)
      && Total(Roots(count, m, used[k], k)) == Total(count[..m])
      && AtLeast(Roots(count, m, used[k], k), low)
      && (k > 0 ==> count[STARTNODE + k - 1] <= 2 * low)
  }

  /** The two roots chosen by a merge, and every other root, in order. */
  ghost predicate Chosen(roots: seq<nat>, p: nat, high: nat)
    requires p + 1 < |roots|
  {
    && roots[p] <= high && roots[p + 1] <= high && (roots[p] == high || roots[p + 1] == high)
    && forall i :: 0 <= i < |roots| && i != p && i != p + 1 ==> high <= roots[i]
  }

  lemma Adopt(parent: seq<nat>, after: seq<nat>, m: nat, used: seq<nat>, b: nat)
    requires 0 < |used| <= m && Adopted(parent, m, used) && Ordered(used) && |after| == |parent|
    requires Adopts(after, m, used[|used| - 1], b, |used| - 1)
    requires forall i :: m - used[|used| - 1] <= i < m ==> after[i] == parent[i]
    requires forall i :: STARTNODE <= i < STARTNODE + 2 * (|used| - 1) - used[|used| - 1] ==> after[i] == parent[i]
    ensures Adopted(after, m, used + [b]) && Ordered(used + [b])
  {
    var more, k := used + [b], |used| - 1;
    forall j | 0 <= j < |more| - 1 ensures Adopts(after, m, more[j], more[j + 1], j) {
      if j < k {
        assert Adopts(parent, m, used[j], used[j + 1], j);
        assert used[j + 1] <= used[k] && 2 * (j + 1) - used[j + 1] <= 2 * k - used[k];
      }
    }
  }

  lemma GrowTrace(count: seq<nat>, m: nat, used: seq<nat>, after: seq<nat>, b: nat)
    requires 0 < |used| < m <= STARTNODE && Traced(count, m, used) && |count| == |after| == NODES
    requires Merges(after, m, used[|used| - 1], b, |used| - 1)
    requires forall i :: 0 <= i < STARTNODE + |used| - 1 ==> after[i] == count[i]
    ensures Traced(after, m, used + [b])
  {
    hide Roots;
    var more, k := used + [b], |used| - 1;
    forall j | 0 <= j < |more| - 1 ensures Merges(after, m, more[j], more[j + 1], j) {
      if j < k {
        assert Merges(count, m, used[j], used[j + 1], j);
        SameMerge(count, after, m, used[j], used[j + 1], j);
      }
    }
  }

  lemma GrowRoots(count: seq<nat>, m: nat, a: nat, b: nat, k: nat, low: nat, after: seq<nat>, high: nat)
    requires Joins(m, a, b, k) && |count| == NODES && k + 1 < m
    requires Chosen(Roots(count, m, a, k), m - b, high) && AtLeast(Roots(count, m, a, k), low)
    requires SymbolsLighter(count, m, a, b, k)
    requires after == count[STARTNODE + k := Roots(count, m, a, k)[m - b] + Roots(count, m, a, k)[m - b + 1]]
    ensures Total(Roots(after, m, b, k + 1)) == Total(Roots(count, m, a, k))
    ensures AtLeast(Roots(after, m, b, k + 1), high) && 2 * low <= after[STARTNODE + k] <= 2 * high
    ensures Merges(after, m, a, b, k)
  {
    hide Total;
    var r, p := Roots(count, m, a, k), m - b;
    assert Roots(after, m, a, k) == r;
    RootsSplit(after, m, a, b, k);
    TotalSplit(r[..p], r[p], r[p + 1], r[p + 2..]);
  }

  lemma Grow(count: seq<nat>, parent: seq<nat>, m: nat, used: seq<nat>, low: nat,
             after: seq<nat>, adopted: seq<nat>, b: nat, high: nat)
    requires Forest(count, parent, m, used, low) && |used| < m && Joins(m, used[|used| - 1], b, |used| - 1)
    requires Chosen(Roots(count, m, used[|used| - 1], |used| - 1), m - b, high)
    requires SymbolsLighter(count, m, used[|used| - 1], b, |used| - 1)
    requires after == count[STARTNODE + |used| - 1 :=
      Roots(count, m, used[|used| - 1], |used| - 1)[m - b] + Roots(count, m, used[|used| - 1], |used| - 1)[m - b + 1]]
    requires |adopted| == NODES && Adopted(adopted, m, used + [b]) && Ordered(used + [b])
    ensures after[..m] == count[..m] && Forest(after, adopted, m, used + [b], high)
  {
    hide Total, Roots, AtLeast, Chosen, Traced, Merges, Adopted, Ordered, SymbolsLighter;
    GrowRoots(count, m, used[|used| - 1], b, |used| - 1, low, after, high);
    GrowTrace(count, m, used, after, b);
  }

  /** Every node without a parent weighs between `low` and `high`. */
  ghost predicate Above(count: seq<nat>, lowS: int, lowN: nat, nodeNb: nat, low: nat, high: nat)
  {
    && lowS < |count| && nodeNb <= |count|
    && (forall i :: 0 <= i <= lowS ==> low <= count[i] <= high)
    && (forall i :: lowN <= i < nodeNb ==> low <= count[i] <= high)
  }

  /** Takes the lighter of the last symbol and the first made node without a
      parent.  The marks around both queues are never taken. */
  method TakeLighter(count: array<nat>, lowS: int, lowN: nat, ghost nodeNb: nat)
    returns (n: nat, restS: int, restN: nat)
    requires count.Length == NODES + 1 && -1 <= lowS < STARTNODE && STARTNODE <= lowN <= nodeNb < NODES
    requires count[0] == BARRIER && count[1 + nodeNb] == UNMADE && (lowS >= 0 || lowN < nodeNb)
    requires Falling(count[1..], lowS + 1) && RisingFrom(count[1..], lowN, nodeNb)
    requires Above(count[1..], lowS, lowN, nodeNb, 0, UNMADE - 1)
    ensures Takes(n, lowS, lowN, nodeNb, restS, restN) && -1 <= restS
    ensures Above(count[1..], lowS, lowN, nodeNb, count[1..][n], UNMADE - 1)
    ensures Strictly(count[1..], lowS, n, restS, restN, nodeNb)
  {
    ghost var c := count[1..];
    assert forall i :: 0 <= i < NODES ==> c[i] == count[1 + i];
    if count[1 + lowS] < count[1 + lowN] {
      n, restS, restN := lowS, lowS - 1, lowN;
    } else {
      n, restS, restN := lowN, lowS, lowN + 1;
    }
  }

  /** One node is taken off one of the two queues. */
  ghost predicate Takes(n: nat, lowS: int, lowN: nat, nodeNb: nat, restS: int, restN: nat)
  {
    || (n == lowS && restS == lowS - 1 && restN == lowN)
    || (n == lowN < nodeNb && restS == lowS && restN == lowN + 1)
  }

  /** If a symbol was taken, then because it is lighter than all made nodes. */
  ghost predicate Strictly(count: seq<nat>, lowS: int, n: nat, restS: int, restN: nat, nodeNb: nat)
  {
    restS < lowS ==> n < |count| && nodeNb <= |count| && forall i :: restN <= i < nodeNb ==> count[n] < count[i]
  }

  lemma ForestAbove(count: seq<nat>, parent: seq<nat>, m: nat, used: seq<nat>, low: nat)
    requires Forest(count, parent, m, used, low)
    ensures var k := |used| - 1;
      Above(count, m - 1 - used[k], STARTNODE + 2 * k - used[k], STARTNODE + k, 0, Total(count[..m]))
  {
    hide Total, Traced, Adopted, Ordered, AtLeast;
    var k := |used| - 1;
    var a := used[k];
    var r := Roots(count, m, a, k);
    forall i | 0 <= i < m - a ensures count[i] <= Total(count[..m]) {
      TotalMember(r, i);
    }
    forall i | STARTNODE + 2 * k - a <= i < STARTNODE + k ensures count[i] <= Total(count[..m]) {
      TotalMember(r, i - (STARTNODE + 2 * k - a) + m - a);
    }
  }

  /** What the two queues of a forest look like to `TakeLighter`. */
  lemma ForestQueues(count: seq<nat>, parent: seq<nat>, m: nat, used: seq<nat>, low: nat)
    requires Forest(count, parent, m, used, low) && |used| < m
    ensures var k := |used| - 1; var lowS, lowN := m - 1 - used[k], STARTNODE + 2 * k - used[k];
      && |count| == |parent| == NODES
      && -1 <= lowS < STARTNODE <= lowN <= STARTNODE + k < NODES && (lowS + 1) + (STARTNODE + k - lowN) == m - k
      && Falling(count, lowS + 1) && RisingFrom(count, lowN, STARTNODE + k)
      && Above(count, lowS, lowN, STARTNODE + k, 0, Total(count[..m]))
  {
    hide Total, Traced, Adopted, Ordered, AtLeast, Roots, Above;
    ForestAbove(count, parent, m, used, low);
  }

  /** Two nodes taken one after the other are two lightest roots. */
  lemma TwoTaken(count: seq<nat>, m: nat, a: nat, k: nat, n1: nat, s1: int, t1: nat, n2: nat, s2: int, t2: nat, cap: nat)
    requires Mark(m, a, k) && m <= STARTNODE && |count| == NODES && k < m - 1
    requires Takes(n1, m - 1 - a, STARTNODE + 2 * k - a, STARTNODE + k, s1, t1) && -1 <= s1
    requires Takes(n2, s1, t1, STARTNODE + k, s2, t2) && -1 <= s2
    requires Above(count, m - 1 - a, STARTNODE + 2 * k - a, STARTNODE + k, count[n1], cap)
    requires Above(count, s1, t1, STARTNODE + k, count[n2], cap)
    requires Strictly(count, m - 1 - a, n1, s1, t1, STARTNODE + k) && Strictly(count, s1, n2, s2, t2, STARTNODE + k)
    ensures Joins(m, a, m - 1 - s2, k) && SymbolsLighter(count, m, a, m - 1 - s2, k)
    ensures var r, b := Roots(count, m, a, k), m - 1 - s2;
      && Joins(m, a, b, k) && t2 == STARTNODE + 2 * (k + 1) - b
      && Chosen(r, m - b, count[n2]) && r[m - b] + r[m - b + 1] == count[n1] + count[n2]
  {
    hide Roots, Mark, Joins, Takes, Above, Node, Strictly, SymbolsLighter;
    var r, b := Roots(count, m, a, k), m - 1 - s2;
    TakenArithmetic(m, a, k, n1, s1, t1, n2, s2, t2);
    TakenStrictly(count, m, a, k, n1, s1, t1, n2, s2, t2);
    var p := m - b;
    RootsAt(count, m, a, k, p);
    RootsAt(count, m, a, k, p + 1);
    forall i | 0 <= i < |r| && i != p && i != p + 1 ensures count[n2] <= r[i] {
      RootsAt(count, m, a, k, i);
      AboveAt(count, s1, t1, STARTNODE + k, count[n2], cap, Node(m, a, k, i));
    }
    AboveAt(count, m - 1 - a, STARTNODE + 2 * k - a, STARTNODE + k, count[n1], cap, n2);
  }

  lemma TakenStrictly(count: seq<nat>, m: nat, a: nat, k: nat, n1: nat, s1: int, t1: nat, n2: nat, s2: int, t2: nat)
    requires Mark(m, a, k) && m <= STARTNODE && |count| == NODES && k < m - 1 && s2 < m && Joins(m, a, m - 1 - s2, k)
    requires Takes(n1, m - 1 - a, STARTNODE + 2 * k - a, STARTNODE + k, s1, t1) && -1 <= s1
    requires Takes(n2, s1, t1, STARTNODE + k, s2, t2) && -1 <= s2
    requires Strictly(count, m - 1 - a, n1, s1, t1, STARTNODE + k) && Strictly(count, s1, n2, s2, t2, STARTNODE + k)
    ensures SymbolsLighter(count, m, a, m - 1 - s2, k)
  {}

  lemma AboveAt(count: seq<nat>, lowS: int, lowN: nat, nodeNb: nat, low: nat, high: nat, n: nat)
    requires Above(count, lowS, lowN, nodeNb, low, high) && (n <= lowS || lowN <= n < nodeNb)
    ensures n < |count| && low <= count[n]
  {}

  function Node(m: nat, a: nat, k: nat, i: nat): nat
    requires Mark(m, a, k) && i < m - k
  {
    if i < m - a then i else STARTNODE + 2 * k - a + (i - (m - a))
  }

  lemma RootsAt(vals: seq<nat>, m: nat, a: nat, k: nat, i: nat)
    requires Mark(m, a, k) && m <= STARTNODE && STARTNODE + k <= |vals| && i < m - k
    ensures Roots(vals, m, a, k)[i] == vals[Node(m, a, k, i)]
  {}

  lemma TakenArithmetic(m: nat, a: nat, k: nat, n1: nat, s1: int, t1: nat, n2: nat, s2: int, t2: nat)
    requires Mark(m, a, k) && m <= STARTNODE && k < m - 1
    requires Takes(n1, m - 1 - a, STARTNODE + 2 * k - a, STARTNODE + k, s1, t1) && -1 <= s1
    requires Takes(n2, s1, t1, STARTNODE + k, s2, t2) && -1 <= s2
    ensures var b := m - 1 - s2;
      && Joins(m, a, b, k) && t2 == STARTNODE + 2 * (k + 1) - b && m - b + 1 < m - k && s2 <= s1 && t1 <= t2 && n1 < NODES
      && (n2 <= m - 1 - a || STARTNODE + 2 * k - a <= n2 < STARTNODE + k)
      && ((Node(m, a, k, m - b) == n1 && Node(m, a, k, m - b + 1) == n2)
          || (Node(m, a, k, m - b) == n2 && Node(m, a, k, m - b + 1) == n1))
      && forall i: nat :: i < m - k && i != m - b && i != m - b + 1 ==>
           var n := Node(m, a, k, i); n <= s2 || t2 <= n < STARTNODE + k
  {}

  lemma AdoptTwo(parent: seq<nat>, m: nat, used: seq<nat>, n1: nat, s1: int, t1: nat, n2: nat, s2: int, t2: nat)
    requires 0 < |used| < m <= STARTNODE && |parent| == NODES && Adopted(parent, m, used) && Ordered(used)
    requires -1 <= s2 < m
    requires var k := |used| - 1;
      && Joins(m, used[k], m - 1 - s2, k)
      && Takes(n1, m - 1 - used[k], STARTNODE + 2 * k - used[k], STARTNODE + k, s1, t1)
      && Takes(n2, s1, t1, STARTNODE + k, s2, t2)
    ensures n1 < STARTNODE + |used| - 1 && n2 < STARTNODE + |used| - 1
    ensures var made: nat, more: seq<nat> := STARTNODE + |used| - 1, used + [m - 1 - s2];
      Adopted(parent[n1 := made][n2 := made], m, more) && Ordered(more)
  {
    hide Adopted, Ordered;
    var made: nat := STARTNODE + |used| - 1;
    Adopt(parent, parent[n1 := made][n2 := made], m, used, m - 1 - s2);
  }

  lemma MergeKeeps(count: seq<nat>, parent: seq<nat>, m: nat, used: seq<nat>, low: nat,
                   n1: nat, s1: int, t1: nat, n2: nat, s2: int, t2: nat, cap: nat) returns (b: nat)
    requires Forest(count, parent, m, used, low) && |used| < m && -1 <= s1 && -1 <= s2
    requires var k := |used| - 1; var a := used[k];
      && Takes(n1, m - 1 - a, STARTNODE + 2 * k - a, STARTNODE + k, s1, t1)
      && Takes(n2, s1, t1, STARTNODE + k, s2, t2)
      && Above(count, m - 1 - a, STARTNODE + 2 * k - a, STARTNODE + k, count[n1], cap)
      && Above(count, s1, t1, STARTNODE + k, count[n2], cap)
      && Strictly(count, m - 1 - a, n1, s1, t1, STARTNODE + k) && Strictly(count, s1, n2, s2, t2, STARTNODE + k)
    ensures b == m - 1 - s2 && t2 == STARTNODE + 2 * |used| - b
    ensures var made: nat := STARTNODE + |used| - 1;
      && n1 < made && n2 < made
      && var after: seq<nat> := count[made := count[n1] + count[n2]];
        && Forest(after, parent[n1 := made][n2 := made], m, used + [b], count[n2])
        && after[..m] == count[..m]
  {
    hide Total, Roots, AtLeast, Chosen, Traced, Merges, Adopted, Ordered, Above, Strictly, SymbolsLighter;
    var made: nat := STARTNODE + |used| - 1;
    TwoTaken(count, m, used[|used| - 1], |used| - 1, n1, s1, t1, n2, s2, t2, cap);
    AdoptTwo(parent, m, used, n1, s1, t1, n2, s2, t2);
    b := m - 1 - s2;
    Grow(count, parent, m, used, low, count[made := count[n1] + count[n2]], parent[n1 := made][n2 := made], b, count[n2]);
  }

  /** One merge: the two lightest roots become the children of node `nodeNb`. */
  method Merge(count: array<nat>, parent: array<nat>, m: nat, nodeNb: nat, lowS: int, lowN: nat,
               ghost used: seq<nat>, ghost low: nat)
    returns (restS: int, restN: nat, ghost b: nat, ghost high: nat)
    requires count != parent && count.Length == NODES + 1 && parent.Length == NODES
    requires Forest(count[1..], parent[..], m, used, low) && |used| < m && nodeNb == STARTNODE + |used| - 1
    requires lowS == m - 1 - used[|used| - 1] && lowN == STARTNODE + 2 * (|used| - 1) - used[|used| - 1]
    requires count[0] == BARRIER && count[1 + nodeNb] == UNMADE && Total(count[1..][..m]) < UNMADE
    modifies count, parent
    ensures Forest(count[1..], parent[..], m, used + [b], high)
    ensures restS == m - 1 - b && restN == STARTNODE + 2 * |used| - b
    ensures count[1..STARTNODE + 1] == old(count[1..STARTNODE + 1])
    ensures count[1..][..m] == old(count[1..][..m]) && count[0] == BARRIER
    ensures forall i :: nodeNb + 1 < i <= NODES ==> count[i] == old(count[i])
  {
    hide Total, Traced, Adopted, Ordered, AtLeast, Roots, Forest, Mark, Joins;
    ghost var c: seq<nat>, p: seq<nat> := count[1..], parent[..];
    ForestQueues(c, p, m, used, low);
    var n1, s1, t1 := TakeLighter(count, lowS, lowN, nodeNb);
    var n2, s2, t2 := TakeLighter(count, s1, t1, nodeNb);
    b := MergeKeeps(c, p, m, used, low, n1, s1, t1, n2, s2, t2, UNMADE - 1);
    high := c[n2];
    assert c[n1] == count[1 + n1] && c[n2] == count[1 + n2];
    count[1 + nodeNb] := count[1 + n1] + count[1 + n2];
    parent[n1] := nodeNb;
    parent[n2] := nodeNb;
    restS, restN := s2, t2;
    assert count[1..] == c[nodeNb := c[n1] + c[n2]];
    assert parent[..] == p[n1 := nodeNb][n2 := nodeNb];
  }

  lemma ForestSame(count: seq<nat>, after: seq<nat>, parent: seq<nat>, m: nat, used: seq<nat>, low: nat)
    requires Forest(count, parent, m, used, low) && |after| == NODES
    requires forall i :: 0 <= i < STARTNODE + |used| - 1 ==> after[i] == count[i]
    ensures Forest(after, parent, m, used, low) && after[..m] == count[..m]
  {
    hide Total, Adopted, Ordered, AtLeast, Lightest;
    var k := |used| - 1;
    assert Roots(after, m, used[k], k) == Roots(count, m, used[k], k);
    assert after[..m] == count[..m];
    forall j | 0 <= j < k ensures Merges(after, m, used[j], used[j + 1], j) {
      assert Merges(count, m, used[j], used[j + 1], j);
      SameMerge(count, after, m, used[j], used[j + 1], j);
    }
  }

  lemma ForestStart(count: seq<nat>, parent: seq<nat>, m: nat)
    requires 2 <= m <= STARTNODE && |count| == |parent| == NODES && Falling(count, m)
    ensures Forest(count, parent, m, [0], 0)
    ensures Above(count, m - 1, STARTNODE, STARTNODE, count[m - 1], count[0])
    ensures Above(count, m - 2, STARTNODE, STARTNODE, count[m - 2], count[0])
  {
    assert Roots(count, m, 0, 0) == count[..m];
  }

  /** The first merge, which needs no comparison, and the marks for the others. */
  method FirstMerge(count: array<nat>, parent: array<nat>, m: nat) returns (ghost used: seq<nat>, ghost low: nat)
    requires 2 <= m <= STARTNODE && count != parent && count.Length == NODES + 1 && parent.Length == NODES
    requires Falling(count[1..], m)
    modifies count, parent
    ensures used == [0, 2] && Forest(count[1..], parent[..], m, used, low)
    ensures count[1..STARTNODE + 1] == old(count[1..STARTNODE + 1])
    ensures count[1..][..m] == old(count[1..][..m]) && count[0] == BARRIER
    ensures forall i :: STARTNODE + 1 < i < STARTNODE + m ==> count[i] == UNMADE
  {
    hide Total, Traced, Adopted, Ordered, AtLeast, Roots, Forest, Mark, Joins;
    ghost var c: seq<nat>, p: seq<nat> := count[1..], parent[..];
    ForestStart(c, p, m);
    ghost var b := MergeKeeps(c, p, m, [0], 0, m - 1, m - 2, STARTNODE, m - 2, m - 3, STARTNODE, c[0]);
    low := c[m - 2];
    used := [0] + [b];
    assert c[m - 1] == count[m] && c[m - 2] == count[m - 1];
    count[1 + STARTNODE] := count[m] + count[m - 1];
    parent[m - 1] := STARTNODE;
    parent[m - 2] := STARTNODE;
    assert count[1..] == c[STARTNODE := c[m - 1] + c[m - 2]];
    assert parent[..] == p[m - 1 := STARTNODE][m - 2 := STARTNODE];
    c, p := count[1..], parent[..];
    for n := STARTNODE + 1 to STARTNODE + m - 1
      invariant forall i :: STARTNODE + 1 < i <= n ==> count[i] == UNMADE
      invariant parent[..] == p && forall i :: 1 <= i <= STARTNODE + 1 ==> count[i] == c[i - 1]
    {
      count[1 + n] := UNMADE;
    }
    count[0] := BARRIER;
    ForestSame(c, count[1..], parent[..], m, used, low);
  }

  /** All merges, until one tree is left. */
  method MakeParents(count: array<nat>, parent: array<nat>, m: nat) returns (ghost used: seq<nat>, ghost low: nat)
    requires 2 <= m <= STARTNODE && count != parent && count.Length == NODES + 1 && parent.Length == NODES
    requires Falling(count[1..], m) && Total(count[1..][..m]) < UNMADE
    modifies count, parent
    ensures |used| == m && Forest(count[1..], parent[..], m, used, low)
    ensures count[1..STARTNODE + 1] == old(count[1..STARTNODE + 1])
    ensures count[1..][..m] == old(count[1..][..m])
  {
    hide Total, Traced, Adopted, Ordered, AtLeast, Roots, Forest, Mark, Joins;
    used, low := FirstMerge(count, parent, m);
    var nodeNb: nat, lowS: int, lowN: nat := STARTNODE + 1, m - 3, STARTNODE;
    while nodeNb < STARTNODE + m - 1
      invariant STARTNODE < nodeNb <= STARTNODE + m - 1 && |used| == nodeNb - STARTNODE + 1
      invariant Forest(count[1..], parent[..], m, used, low)
      invariant lowS == m - 1 - used[|used| - 1] && lowN == STARTNODE + 2 * (|used| - 1) - used[|used| - 1]
      invariant count[1..STARTNODE + 1] == old(count[1..STARTNODE + 1])
      invariant count[1..][..m] == old(count[1..][..m]) && count[0] == BARRIER
      invariant forall i :: nodeNb < i < STARTNODE + m ==> count[i] == UNMADE
    {
      ghost var b;
      lowS, lowN, b, low := Merge(count, parent, m, nodeNb, lowS, lowN, used, low);
      used := used + [b];
      nodeNb := nodeNb + 1;
    }
  }

  // ----- the shape of the finished tree -----

  /** Children come before their parents. */
  ghost predicate Tree(parent: seq<nat>, m: nat)
  {
    && 2 <= m <= STARTNODE && |parent| == NODES
    && (forall i :: 0 <= i < m ==> STARTNODE <= parent[i] <= STARTNODE + m - 2)
    && (forall i :: STARTNODE <= i < STARTNODE + m - 2 ==> i < parent[i] <= STARTNODE + m - 2)
  }

  ghost predicate Child(m: nat, n: nat)
  {
    n < m || STARTNODE <= n < STARTNODE + m - 2
  }

  /** The node is one of the two that merge `k` joins. */
  ghost predicate JoinedBy(m: nat, used: seq<nat>, n: nat, k: nat)
  {
    && k + 1 < |used|
    && (m - used[k + 1] <= n < m - used[k] || STARTNODE + 2 * k - used[k] <= n < STARTNODE + 2 * k + 2 - used[k + 1])
  }

  /** Every node but the root is joined by some merge after it was made. */
  lemma {:induction false} Joined(parent: seq<nat>, m: nat, used: seq<nat>, n: nat, t: nat) returns (k: nat)
    requires 2 <= m <= STARTNODE && 0 < t < |used| <= m && used[0] == 0 && Adopted(parent, m, used)
    requires m - used[t] <= n < m || STARTNODE <= n < STARTNODE + 2 * t - used[t]
    ensures k < t && JoinedBy(m, used, n, k) && Joins(m, used[k], used[k + 1], k)
    ensures n < |parent| && parent[n] == STARTNODE + k && (n >= STARTNODE ==> n < STARTNODE + k)
    decreases t
  {
    k := t - 1;
    assert Adopts(parent, m, used[k], used[k + 1], k);
    if !JoinedBy(m, used, n, k) { k := Joined(parent, m, used, n, t - 1); }
  }

  lemma JoinedAtAll(count: seq<nat>, parent: seq<nat>, m: nat, used: seq<nat>, low: nat, n: nat) returns (k: nat)
    requires Forest(count, parent, m, used, low) && |used| == m && Child(m, n)
    ensures k < m - 1 && JoinedBy(m, used, n, k) && Joins(m, used[k], used[k + 1], k)
    ensures parent[n] == STARTNODE + k && (n >= STARTNODE ==> n < STARTNODE + k)
  {
    assert Adopts(parent, m, used[m - 2], used[m - 1], m - 2);
    k := Joined(parent, m, used, n, m - 1);
  }

  lemma ForestTree(count: seq<nat>, parent: seq<nat>, m: nat, used: seq<nat>, low: nat)
    requires Forest(count, parent, m, used, low) && |used| == m
    ensures Tree(parent, m)
  {
    hide Traced, Adopted, Ordered, Roots, Total, AtLeast;
    forall n: nat | Child(m, n)
      ensures STARTNODE <= parent[n] <= STARTNODE + m - 2 && (n >= STARTNODE ==> n < parent[n])
    {
      var k := JoinedAtAll(count, parent, m, used, low, n);
    }
    assert forall i :: 0 <= i < m ==> Child(m, i);
    assert forall i :: STARTNODE <= i < STARTNODE + m - 2 ==> Child(m, i);
  }

  ghost predicate DepthsOf(depth: seq<nat>, parent: seq<nat>, m: nat)
    requires Tree(parent, m)
  {
    && |depth| == NODES && depth[STARTNODE + m - 2] == 0
    && forall n: nat :: Child(m, n) ==> depth[n] == depth[parent[n]] + 1
  }

  /** Hands the depths down from the root. */
  method Distribute(nbBits: array<nat>, parent: array<nat>, m: nat)
    requires nbBits != parent && nbBits.Length == NODES && Tree(parent[..], m)
    modifies nbBits
    ensures DepthsOf(nbBits[..], parent[..], m)
    ensures forall i :: m <= i < STARTNODE ==> nbBits[i] == old(nbBits[i])
  {
    ghost var p := parent[..];
    var nodeRoot := STARTNODE + m - 2;
    nbBits[nodeRoot] := 0;
    for n := nodeRoot downto STARTNODE
      invariant nbBits[nodeRoot] == 0 && forall i :: m <= i < STARTNODE ==> nbBits[i] == old(nbBits[i])
      invariant forall i :: n <= i < nodeRoot ==> nbBits[i] == nbBits[p[i]] + 1
    {
      nbBits[n] := nbBits[parent[n]] + 1;
    }
    for n := 0 to m
      invariant nbBits[nodeRoot] == 0 && forall i :: m <= i < STARTNODE ==> nbBits[i] == old(nbBits[i])
      invariant forall i :: STARTNODE <= i < nodeRoot ==> nbBits[i] == nbBits[p[i]] + 1
      invariant forall i :: 0 <= i < n ==> nbBits[i] == nbBits[p[i]] + 1
    {
      nbBits[n] := nbBits[parent[n]] + 1;
    }
  }

  lemma RootDepth(parent: seq<nat>, depth: seq<nat>, m: nat, a: nat, b: nat, k: nat, p: nat)
    requires Tree(parent, m) && DepthsOf(depth, parent, m) && Adopts(parent, m, a, b, k) && k < m - 1
    requires m - b <= p <= m - b + 1
    ensures Roots(depth, m, a, k)[p] == depth[STARTNODE + k] + 1
  {
    var n: nat := if p < m - a then p else p - (m - a) + STARTNODE + 2 * k - a;
    assert Child(m, n) && parent[n] == STARTNODE + k;
  }

  lemma DepthsHold(count: seq<nat>, parent: seq<nat>, depth: seq<nat>, m: nat, used: seq<nat>, low: nat)
    requires Forest(count, parent, m, used, low) && |used| == m && Tree(parent, m) && DepthsOf(depth, parent, m)
    ensures Depths(depth, m, used)
  {
    hide Traced, Ordered, Total, AtLeast;
    forall k | 0 <= k < m - 1 ensures Below(depth, m, used[k], used[k + 1], k) {
      assert Adopts(parent, m, used[k], used[k + 1], k);
      RootDepth(parent, depth, m, used[k], used[k + 1], k, m - used[k + 1]);
      RootDepth(parent, depth, m, used[k], used[k + 1], k, m - used[k + 1] + 1);
    }
  }

  /** No node is deeper than the number of merges after it. */
  lemma {:induction false} DepthBound(depth: seq<nat>, parent: seq<nat>, m: nat, n: nat)
    requires Tree(parent, m) && DepthsOf(depth, parent, m) && STARTNODE <= n <= STARTNODE + m - 2
    ensures depth[n] <= STARTNODE + m - 2 - n
    decreases STARTNODE + m - 2 - n
  {
    if n < STARTNODE + m - 2 {
      assert Child(m, n);
      DepthBound(depth, parent, m, parent[n]);
    }
  }

  /** Later merges are of nodes made later: along the symbols parents fall, along the
      made nodes they rise. */
  lemma {:induction false} UsedMono(parent: seq<nat>, m: nat, used: seq<nat>, j: nat, k: nat)
    requires Adopted(parent, m, used) && j <= k < |used|
    ensures used[j] <= used[k] && 2 * j - used[j] <= 2 * k - used[k]
    decreases k
  {
    if j < k {
      assert Adopts(parent, m, used[k - 1], used[k], k - 1);
      UsedMono(parent, m, used, j, k - 1);
    }
  }

  lemma ParentOrder(count: seq<nat>, parent: seq<nat>, m: nat, used: seq<nat>, low: nat, i: nat, j: nat)
    requires Forest(count, parent, m, used, low) && |used| == m && Child(m, i) && Child(m, j) && i <= j
    ensures j < m ==> parent[i] >= parent[j]
    ensures STARTNODE <= i ==> parent[i] <= parent[j]
  {
    hide Forest;
    var k := JoinedAtAll(count, parent, m, used, low, i);
    var l := JoinedAtAll(count, parent, m, used, low, j);
    ForestAdopted(count, parent, m, used, low);
    if k < l { UsedMono(parent, m, used, k + 1, l); }
    if l < k { UsedMono(parent, m, used, l + 1, k); }
  }

  lemma ForestAdopted(count: seq<nat>, parent: seq<nat>, m: nat, used: seq<nat>, low: nat)
    requires Forest(count, parent, m, used, low) && |used| == m
    ensures Adopted(parent, m, used) && Traced(count, m, used) && 2 <= m <= STARTNODE
    ensures |count| == NODES && Mark(m, used[m - 1], m - 1) && m <= used[m - 1]
    ensures Falling(count, m) && Total(Roots(count, m, used[m - 1], m - 1)) == Total(count[..m])
  {
    assert Adopts(parent, m, used[m - 2], used[m - 1], m - 2);
  }

  lemma {:induction false} DepthFalls(count: seq<nat>, parent: seq<nat>, depth: seq<nat>, m: nat, used: seq<nat>, low: nat, i: nat, j: nat)
    requires Forest(count, parent, m, used, low) && |used| == m && Tree(parent, m) && DepthsOf(depth, parent, m)
    requires STARTNODE <= i <= j <= STARTNODE + m - 2
    ensures depth[i] >= depth[j]
    decreases STARTNODE + m - i
  {
    hide Forest;
    if j < STARTNODE + m - 2 {
      assert Child(m, i) && Child(m, j);
      ParentOrder(count, parent, m, used, low, i, j);
      DepthFalls(count, parent, depth, m, used, low, parent[i], parent[j]);
    }
  }

  /** Rarer symbols are at least as deep. */
  lemma SymbolsRise(count: seq<nat>, parent: seq<nat>, depth: seq<nat>, m: nat, used: seq<nat>, low: nat)
    requires Forest(count, parent, m, used, low) && |used| == m && Tree(parent, m) && DepthsOf(depth, parent, m)
    ensures Rising(depth[..m])
  {
    hide Forest;
    forall i: nat, j: nat | i <= j < m ensures depth[i] <= depth[j] {
      assert Child(m, i) && Child(m, j);
      ParentOrder(count, parent, m, used, low, i, j);
      DepthFalls(count, parent, depth, m, used, low, parent[j], parent[i]);
    }
  }

  lemma ShlCancel(a: nat, b: nat, k: nat)
    requires Shl(a, k) == Shl(b, k)
    ensures a == b
  {
    ShrShl(a, k);
    ShrShl(b, k);
  }

  /** The depths of the symbols are the lengths of a complete and optimal code. */
  lemma DepthsComplete(count: seq<nat>, parent: seq<nat>, depth: seq<nat>, m: nat, used: seq<nat>, low: nat)
    requires Forest(count, parent, m, used, low) && |used| == m && Tree(parent, m) && DepthsOf(depth, parent, m)
    ensures CompleteTree(depth[..m], depth[m - 1]) && depth[m - 1] < m
    ensures Best(count[..m], depth[..m])
  {
    hide Best, Sum, Pow2, Shl, Forest, Adopted, Ordered;
    ForestAdopted(count, parent, m, used, low);
    SymbolsRise(count, parent, depth, m, used, low);
    DepthsHold(count, parent, depth, m, used, low);
    forall i | STARTNODE <= i < STARTNODE + m - 1 ensures depth[i] < m - 1 {
      DepthBound(depth, parent, m, i);
    }
    assert Child(m, m - 1);
    BestFrom(count, depth, m, used, 0);
    FullFrom(depth, m, used, 0, m);
    assert Roots(count, m, 0, 0) == count[..m] && Roots(depth, m, 0, 0) == depth[..m];
    var bits, largest := depth[..m], depth[m - 1];
    forall i | 0 <= i < m ensures 1 <= bits[i] <= largest { assert Child(m, i); }
    SumScale(bits, m, largest, m);
    PowerSplit(largest, m - largest);
    ShlCancel(Sum(bits, m, largest), Pow2(largest), m - largest);
  }

  // ----- how deep the tree can get -----

  function Fib(n: nat): nat
  {
    if n < 2 then n else Fib(n - 1) + Fib(n - 2)
  }

  lemma AtLeastNext(count: seq<nat>, m: nat, a: nat, b: nat, k: nat, low: nat)
    requires Merges(count, m, a, b, k) && AtLeast(Roots(count, m, a, k), low)
    ensures AtLeast(Roots(count, m, b, k + 1), low)
  {
    RootsSplit(count, m, a, b, k);
  }

  lemma {:induction false} AtLeastLater(count: seq<nat>, m: nat, used: seq<nat>, k: nat, l: nat, low: nat)
    requires Traced(count, m, used) && k < l < |used| && Mark(m, used[k], k)
    requires m <= STARTNODE && STARTNODE + k <= |count| && AtLeast(Roots(count, m, used[k], k), low)
    ensures Mark(m, used[l], l) && STARTNODE + l <= |count| && AtLeast(Roots(count, m, used[l], l), low)
    decreases l
  {
    hide AtLeast, Roots, Lightest;
    assert Merges(count, m, used[l - 1], used[l], l - 1);
    if k < l - 1 { AtLeastLater(count, m, used, k, l - 1, low); }
    AtLeastNext(count, m, used[l - 1], used[l], l - 1, low);
  }

  /** A merge of a node weighing at least `x` among roots weighing at least `y`. */
  lemma MergeWeight(count: seq<nat>, m: nat, a: nat, b: nat, k: nat, n: nat, x: nat, y: nat)
    requires Merges(count, m, a, b, k) && AtLeast(Roots(count, m, a, k), y) && |count| == NODES && n < NODES
    requires m - b <= n < m - a || STARTNODE + 2 * k - a <= n < STARTNODE + 2 * k + 2 - b
    requires count[n] >= x
    ensures count[STARTNODE + k] >= x + y
    ensures AtLeast(Roots(count, m, b, k + 1), x)
  {
    var roots, p := Roots(count, m, a, k), m - b;
    var q := if n < m - a then n else n - (STARTNODE + 2 * k - a) + m - a;
    assert roots[q] == count[n] && (q == p || q == p + 1);
    RootsSplit(count, m, a, b, k);
    var next := Roots(count, m, b, k + 1);
    forall i | 0 <= i < |next| ensures next[i] >= x {
      assert next[i] == if i < p then roots[i] else if i < m - k - 2 then roots[i + 2] else count[STARTNODE + k];
    }
  }

  /** `n` has no parent after `t` merges. */
  ghost predicate RootAt(m: nat, used: seq<nat>, n: nat, t: nat)
  {
    t < |used| && (n < m - used[t] || STARTNODE + 2 * t - used[t] <= n < STARTNODE + t)
  }

  /** Climbing from a node `i` levels above some symbol: its weight grows at least
      like the Fibonacci numbers, as the sibling met at each level was passed over
      when the level below was merged. */
  lemma {:induction false} Climb(count: seq<nat>, parent: seq<nat>, depth: seq<nat>, m: nat, used: seq<nat>, low: nat,
                                 n: nat, t: nat, i: nat)
    requires Forest(count, parent, m, used, low) && |used| == m && Tree(parent, m) && DepthsOf(depth, parent, m)
    requires RootAt(m, used, n, t) && Mark(m, used[t], t) && t <= m - 1 && (Child(m, n) || n == STARTNODE + m - 2)
    requires count[n] >= Fib(i + 2) && AtLeast(Roots(count, m, used[t], t), Fib(i + 1))
    ensures Total(count[..m]) >= Fib(i + depth[n] + 2)
    decreases depth[n]
  {
    hide Forest, AtLeast, Roots, Total, Traced, Adopted;
    ForestAdopted(count, parent, m, used, low);
    if Child(m, n) {
      var k := JoinedAtAll(count, parent, m, used, low, n);
      RootBefore(parent, m, used, n, t, k);
      TracedMerge(count, m, used, k);
      if t < k { AtLeastLater(count, m, used, t, k, Fib(i + 1)); }
      MergeWeight(count, m, used[k], used[k + 1], k, n, Fib(i + 2), Fib(i + 1));
      RootAfter(m, used, k);
      Climb(count, parent, depth, m, used, low, STARTNODE + k, k + 1, i + 1);
    } else {
      RootWeighsAll(count, parent, m, used, low);
    }
  }

  lemma TracedMerge(count: seq<nat>, m: nat, used: seq<nat>, k: nat)
    requires Traced(count, m, used) && k + 1 < |used|
    ensures Merges(count, m, used[k], used[k + 1], k)
  {}

  lemma RootBefore(parent: seq<nat>, m: nat, used: seq<nat>, n: nat, t: nat, k: nat)
    requires Adopted(parent, m, used) && |used| == m <= STARTNODE && RootAt(m, used, n, t) && JoinedBy(m, used, n, k)
    ensures t <= k
  {
    if k < t { UsedMono(parent, m, used, k + 1, t); }
  }

  lemma RootAfter(m: nat, used: seq<nat>, k: nat)
    requires k + 1 < |used| && Joins(m, used[k], used[k + 1], k)
    ensures RootAt(m, used, STARTNODE + k, k + 1)
  {}

  lemma RootWeighsAll(count: seq<nat>, parent: seq<nat>, m: nat, used: seq<nat>, low: nat)
    requires Forest(count, parent, m, used, low) && |used| == m
    ensures count[STARTNODE + m - 2] == Total(count[..m])
  {
    ForestAdopted(count, parent, m, used, low);
    var root := count[STARTNODE + m - 2];
    LastRoots(count, m, used[m - 1]);
    TotalOne(root);
  }

  /** A symbol at depth `d` takes a total count of at least Fibonacci number `d + 2`. */
  lemma DeepIsHeavy(count: seq<nat>, parent: seq<nat>, depth: seq<nat>, m: nat, used: seq<nat>, low: nat, n: nat)
    requires Forest(count, parent, m, used, low) && |used| == m && Tree(parent, m) && DepthsOf(depth, parent, m)
    requires n < m && count[m - 1] > 0
    ensures Total(count[..m]) >= Fib(depth[n] + 2)
  {
    hide Total;
    assert Child(m, n);
    assert Roots(count, m, 0, 0) == count[..m];
    assert Fib(1) == 1 && Fib(2) == 1;
    Climb(count, parent, depth, m, used, low, n, 0, 0);
  }

  lemma {:induction false} FibMono(a: nat, b: nat)
    requires a <= b
    ensures Fib(a) <= Fib(b)
    decreases b
  {
    if a < b { FibMono(a, b - 1); }
  }

  lemma FibValue()
    ensures Fib(27) == 196418
  {
    assert Fib(7) == 13 && Fib(8) == 21;
    assert Fib(9) == 34 && Fib(10) == 55;
    assert Fib(11) == 89 && Fib(12) == 144;
    assert Fib(13) == 233 && Fib(14) == 377;
    assert Fib(15) == 610 && Fib(16) == 987;
    assert Fib(17) == 1597 && Fib(18) == 2584;
    assert Fib(19) == 4181 && Fib(20) == 6765;
    assert Fib(21) == 10946 && Fib(22) == 17711;
    assert Fib(23) == 28657 && Fib(24) == 46368;
    assert Fib(25) == 75025 && Fib(26) == 121393;
  }

  /** `HUF_BLOCKSIZE_MAX`. */
  const BLOCKSIZE_MAX := 131072

  /** A block of at most 128 KB gives a tree no deeper than 24. */
  lemma BlockDepth(total: nat, d: nat)
    requires Fib(d + 2) <= total <= BLOCKSIZE_MAX
    ensures d <= 24
  {
    hide Fib;
    if d > 24 {
      FibMono(27, d + 2);
      FibValue();
    }
  }

  /** In general the total bounds the depth by Fibonacci. */
  lemma DepthBelow(total: nat, d: nat, limit: nat)
    requires Fib(d + 2) <= total < Fib(limit + 3)
    ensures d <= limit
  {
    hide Fib;
    if d > limit { FibMono(limit + 3, d + 2); }
  }

  lemma TotalPrefix(ws: seq<nat>, m: nat, n: nat)
    requires m <= n <= |ws|
    ensures Total(ws[..m]) <= Total(ws[..n])
  {
    SumOfSame(ws[..m], ws, m);
    SumOfSame(ws[..n], ws, n);
    SumOfMono(ws, m, n);
  }

  // ----- the whole -----

  /** `HUF_buildTree`, on counts sorted by `HUF_sort`.  The code lengths it leaves are
      those of a complete prefix code, shorter for more frequent symbols, and no
      prefix code makes the message shorter. */
  method BuildTree(count: array<nat>, parent: array<nat>, nbBits: array<nat>, maxSymbolValue: nat)
    returns (nonNullRank: nat)
    requires count != parent && parent != nbBits && nbBits != count
    requires count.Length == NODES + 1 && parent.Length == NODES && nbBits.Length == NODES
    requires 0 < maxSymbolValue < STARTNODE && Falling(count[1..], maxSymbolValue + 1)
    requires count[2] > 0 && Total(count[1..][..maxSymbolValue + 1]) < UNMADE
    modifies count, parent, nbBits
    ensures 0 < nonNullRank <= maxSymbolValue && count[1..][..maxSymbolValue + 1] == old(count[1..][..maxSymbolValue + 1])
    ensures forall i :: 0 < i <= maxSymbolValue + 1 ==> (count[i] > 0 <==> i <= nonNullRank + 1)
    ensures forall i :: nonNullRank < i < STARTNODE ==> nbBits[i] == old(nbBits[i])
    ensures CompleteTree(nbBits[..nonNullRank + 1], nbBits[nonNullRank])
    ensures Best(count[1..nonNullRank + 2], nbBits[..nonNullRank + 1])
    ensures Grown(count[1..], nbBits[..], nonNullRank + 1)
    ensures Fib(nbBits[nonNullRank] + 2) <= Total(count[1..nonNullRank + 2])
  {
    hide Total, Best, CompleteTree, Fib, Forest, Tree, DepthsOf, Grown;
    ghost var before: seq<nat> := count[1..];
    nonNullRank := maxSymbolValue;
    while count[1 + nonNullRank] == 0
      invariant 0 < nonNullRank <= maxSymbolValue
      invariant forall i :: nonNullRank + 1 < i <= maxSymbolValue + 1 ==> count[i] == 0
      decreases nonNullRank
    {
      nonNullRank := nonNullRank - 1;
    }
    ghost var m := nonNullRank + 1;
    assert count[1..] == before;
    assert forall i :: 0 <= i <= maxSymbolValue ==> before[i] == count[1 + i] && (before[i] > 0 <==> i <= nonNullRank);
    TotalPrefix(before, m, maxSymbolValue + 1);
    BuildOf(count, parent, nbBits, nonNullRank + 1);
    assert count[1..][..STARTNODE] == count[1..STARTNODE + 1] == before[..STARTNODE];
    assert count[1..][..maxSymbolValue + 1] == count[1..][..STARTNODE][..maxSymbolValue + 1];
    assert before[..maxSymbolValue + 1] == before[..STARTNODE][..maxSymbolValue + 1];
    forall i | 0 < i <= maxSymbolValue + 1 ensures count[i] > 0 <==> i <= nonNullRank + 1 {
      assert count[i] == count[1..STARTNODE + 1][i - 1] == before[..STARTNODE][i - 1] == before[i - 1];
    }
  }

  lemma GrownFrom(count: seq<nat>, parent: seq<nat>, depth: seq<nat>, m: nat, used: seq<nat>, low: nat)
    requires Forest(count, parent, m, used, low) && |used| == m && Tree(parent, m) && DepthsOf(depth, parent, m)
    ensures Grown(count, depth, m)
  {
    hide Total, Traced, Adopted, Ordered, AtLeast, Depths, Tree, DepthsOf;
    DepthsHold(count, parent, depth, m, used, low);
  }

  /** The tree of the first `m` counts, all in use. */
  method BuildOf(count: array<nat>, parent: array<nat>, nbBits: array<nat>, m: nat)
    requires count != parent && parent != nbBits && nbBits != count
    requires count.Length == NODES + 1 && parent.Length == NODES && nbBits.Length == NODES
    requires 2 <= m <= STARTNODE && Falling(count[1..], m) && count[1..][m - 1] > 0
    requires Total(count[1..][..m]) < UNMADE
    modifies count, parent, nbBits
    ensures count[1..STARTNODE + 1] == old(count[1..STARTNODE + 1])
    ensures forall i :: m <= i < STARTNODE ==> nbBits[i] == old(nbBits[i])
    ensures CompleteTree(nbBits[..m], nbBits[m - 1])
    ensures Best(count[1..m + 1], nbBits[..m])
    ensures Grown(count[1..], nbBits[..], m)
    ensures Fib(nbBits[m - 1] + 2) <= Total(count[1..m + 1])
  {
    hide Total, Best, CompleteTree, Fib, Forest, Tree, DepthsOf, Grown;
    ghost var was := count[1..][m - 1];
    ghost var used, low := MakeParents(count, parent, m);
    ghost var c := count[1..];
    assert c[m - 1] == c[..m][m - 1] == was;
    ForestTree(c, parent[..], m, used, low);
    Distribute(nbBits, parent, m);
    DepthsComplete(c, parent[..], nbBits[..], m, used, low);
    GrownFrom(c, parent[..], nbBits[..], m, used, low);
    assert c[..m] == count[1..m + 1];
    DeepIsHeavy(c, parent[..], nbBits[..], m, used, low, m - 1);
  }
}
