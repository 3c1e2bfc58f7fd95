/** Where FSE puts each symbol in its state table: the layout both table builders
    of libzstd/compress/fse_compress.c and libzstd/common/fse_decompress.c follow,
    and the proof that it fills every cell exactly once. */
module FseSpread {
  import opened Bits
  import opened BitStream
  import opened Counting

  const MIN_TABLELOG := 5
  const MAX_TABLELOG := 12
  const MAX_SYMBOL_VALUE := 255

  // ----- normalised counters -----

  /** The number of cells a counter stands for; -1 marks a low-probability symbol. */
  function Weight(n: int): nat { if n < 0 then 1 else n }

  /** The cells of the first `k` symbols. */
  function Cum(norm: seq<int>, k: nat): nat
    requires k <= |norm|
  {
    if k == 0 then 0 else Cum(norm, k - 1) + Weight(norm[k - 1])
  }

  /** The low-probability symbols among the first `k`. */
  function LowCount(norm: seq<int>, k: nat): nat
    requires k <= |norm|
  {
    if k == 0 then 0 else LowCount(norm, k - 1) + (if norm[k - 1] < 0 then 1 else 0)
  }

  /** The cells of the ordinary symbols among the first `k`. */
  function Regular(norm: seq<int>, k: nat): nat
    requires k <= |norm|
  {
    if k == 0 then 0 else Regular(norm, k - 1) + (if norm[k - 1] < 0 then 0 else norm[k - 1])
  }

  ghost predicate ValidNorm(norm: seq<int>, tableLog: nat)
  {
    && MIN_TABLELOG <= tableLog <= MAX_TABLELOG
    && 0 < |norm| <= MAX_SYMBOL_VALUE + 1
    && (forall s :: 0 <= s < |norm| ==> norm[s] >= -1)
    && Cum(norm, |norm|) == Pow2(tableLog)
  }

  lemma {:induction false} CumParts(norm: seq<int>, k: nat)
    requires k <= |norm|
    ensures Cum(norm, k) == LowCount(norm, k) + Regular(norm, k)
  {
    if k > 0 { CumParts(norm, k - 1); }
  }

  lemma {:induction false} CumMono(norm: seq<int>, j: nat, k: nat)
    requires j <= k <= |norm|
    ensures Cum(norm, j) <= Cum(norm, k)
    ensures LowCount(norm, j) <= LowCount(norm, k)
    ensures Regular(norm, j) <= Regular(norm, k)
    ensures Cum(norm, k) - Cum(norm, j) >= LowCount(norm, k) - LowCount(norm, j)
    decreases k
  {
    if j < k { CumMono(norm, j, k - 1); }
  }

  // ----- the walk over the table -----

  /** `FSE_TABLESTEP`. */
  function Step(tableLog: nat): nat
  {
    Pow2(tableLog) / 2 + Pow2(tableLog) / 8 + 3
  }

  function Times(i: nat, q: nat): nat
  {
    if i == 0 then 0 else Times(i - 1, q) + q
  }

  /** The position after `i` steps. */
  function Visit(i: nat, tableLog: nat): (p: nat)
    ensures p < Pow2(tableLog)
  {
    LowBound(Times(i, Step(tableLog)), tableLog);
    Low(Times(i, Step(tableLog)), tableLog)
  }

  /** `x & tableMask`. */
  function Wrap(x: nat, tableLog: nat): (p: nat)
    ensures p == Low(x, tableLog)
  {
    AndMask(x, tableLog);
    BitAnd(x, Pow2(tableLog) - 1)
  }

  lemma StepOdd(tableLog: nat)
    requires tableLog >= 4
    ensures Step(tableLog) % 2 == 1
  {
    assert Pow2(tableLog) == 4 * Pow2(tableLog - 2) == 16 * Pow2(tableLog - 4);
    OddSum(Pow2(tableLog), Pow2(tableLog - 4));
  }

  lemma OddSum(t: nat, q: nat)
    requires t == 16 * q
    ensures (t / 2 + t / 8 + 3) % 2 == 1
  {
    assert t / 2 == 8 * q && t / 8 == 2 * q;
  }

  lemma LowAdd(x: nat, y: nat, n: nat)
    ensures Low(Low(x, n) + y, n) == Low(x + y, n)
  {
    Split(x, n);
    Split(Low(x, n) + y, n);
    LowBound(Low(x, n) + y, n);
    var h := Shr(Low(x, n) + y, n);
    ShlAdd(Shr(x, n), h, n);
    Join(Low(Low(x, n) + y, n), Shr(x, n) + h, n);
  }

  lemma VisitNext(i: nat, tableLog: nat)
    ensures Visit(i + 1, tableLog) == Low(Visit(i, tableLog) + Step(tableLog), tableLog)
  {
    LowAdd(Times(i, Step(tableLog)), Step(tableLog), tableLog);
  }

  lemma Advance(i: nat, tableLog: nat)
    ensures Wrap(Visit(i, tableLog) + Step(tableLog), tableLog) == Visit(i + 1, tableLog)
  {
    hide Low, Shr, Shl, Pow2, Step, Visit, Wrap;
    VisitNext(i, tableLog);
  }

  lemma RegularNext(norm: seq<int>, s: nat)
    requires s < |norm|
    ensures Regular(norm, 0) == 0
    ensures Regular(norm, s + 1) == Regular(norm, s) + (if norm[s] < 0 then 0 else norm[s])
  {}

  lemma VisitStart(tableLog: nat)
    ensures Visit(0, tableLog) == 0
    ensures Visit(Pow2(tableLog), tableLog) == 0
  {
    LowSmall(0, tableLog);
    TimesPow2(tableLog, Step(tableLog));
    ShrShl(Step(tableLog), tableLog);
  }

  lemma {:induction false} TimesAdd(i: nat, j: nat, q: nat)
    ensures Times(i + j, q) == Times(i, q) + Times(j, q)
    decreases j
  {
    if j > 0 { TimesAdd(i, j - 1, q); }
  }

  lemma {:induction false} TimesPow2(n: nat, q: nat)
    ensures Times(Pow2(n), q) == Shl(q, n)
    decreases n
  {
    if n > 0 {
      TimesPow2(n - 1, q);
      TimesAdd(Pow2(n - 1), Pow2(n - 1), q);
    }
  }

  lemma {:induction false} OddTimes(d: nat, q: nat)
    requires q % 2 == 1
    ensures Times(d, q) % 2 == d % 2
    decreases d
  {
    if d > 0 { OddTimes(d - 1, q); }
  }

  /** An odd number times something less than `2^n` is no multiple of `2^n`. */
  lemma {:induction false} OddNotMultiple(d: nat, q: nat, n: nat)
    requires q % 2 == 1 && 0 < d < Pow2(n)
    ensures Low(Times(d, q), n) != 0
    decreases n
  {
    OddTimes(d, q);
    if d % 2 == 0 {
      TimesAdd(d / 2, d / 2, q);
      OddNotMultiple(d / 2, q, n - 1);
    }
  }

  lemma SameLow(x: nat, y: nat, n: nat)
    requires x <= y && Low(x, n) == Low(y, n)
    ensures Low(y - x, n) == 0
  {
    Split(x, n);
    Split(y, n);
    ShrMono(x, y, n);
    ShlAdd(Shr(x, n), Shr(y, n) - Shr(x, n), n);
    ShrShl(Shr(y, n) - Shr(x, n), n);
  }

  /** The walk never comes back to a cell within one turn. */
  lemma VisitInjective(i: nat, j: nat, tableLog: nat)
    requires tableLog >= 4 && i < j < Pow2(tableLog)
    ensures Visit(i, tableLog) != Visit(j, tableLog)
  {
    hide Low, Shr, Shl, Pow2, Times, Step;
    var p := Step(tableLog);
    StepOdd(tableLog);
    OddNotMultiple(j - i, p, tableLog);
    TimesAdd(i, j - i, p);
    if Visit(i, tableLog) == Visit(j, tableLog) {
      SameLow(Times(i, p), Times(j, p), tableLog);
    }
  }

  // ----- every cell is visited -----

  /** The cells not yet reached after `i` steps carry the mark 1. */
  ghost function Unreached(i: nat, tableLog: nat): (marks: seq<int>)
    ensures |marks| == Pow2(tableLog)
  {
    if i == 0 then seq(Pow2(tableLog), _ => 1)
    else Unreached(i - 1, tableLog)[Visit(i - 1, tableLog) := 0]
  }

  lemma {:induction false} UnreachedCells(i: nat, tableLog: nat)
    requires tableLog >= 4 && i <= Pow2(tableLog)
    ensures Rank(Unreached(i, tableLog), Pow2(tableLog), 1) == Pow2(tableLog) - i
    ensures forall j :: i <= j < Pow2(tableLog) ==> Unreached(i, tableLog)[Visit(j, tableLog)] == 1
    ensures forall u :: 0 <= u < Pow2(tableLog) && Unreached(i, tableLog)[u] != 1 ==>
              exists j :: 0 <= j < i && Visit(j, tableLog) == u
  {
    var n := Pow2(tableLog);
    if i == 0 {
      RankAll(n, 1, n);
    } else {
      UnreachedCells(i - 1, tableLog);
      var before, at := Unreached(i - 1, tableLog), Visit(i - 1, tableLog);
      RankUpdate(before, n, 1, at, 0);
      forall j | i <= j < n ensures Unreached(i, tableLog)[Visit(j, tableLog)] == 1 {
        VisitInjective(i - 1, j, tableLog);
      }
      forall u | 0 <= u < n && Unreached(i, tableLog)[u] != 1
        ensures exists j :: 0 <= j < i && Visit(j, tableLog) == u
      {
        if u != at { assert before[u] != 1; }
      }
    }
  }

  lemma VisitSurjective(u: nat, tableLog: nat) returns (j: nat)
    requires tableLog >= 4 && u < Pow2(tableLog)
    ensures j < Pow2(tableLog) && Visit(j, tableLog) == u
  {
    var n := Pow2(tableLog);
    UnreachedCells(n, tableLog);
    RankNone(Unreached(n, tableLog), n, 1);
    assert Unreached(n, tableLog)[u] != 1;
    j :| 0 <= j < n && Visit(j, tableLog) == u;
  }

  // ----- the layout -----

  /** The ordinary cells: those below the low-probability area. */
  function Ordinary(norm: seq<int>, tableLog: nat): int
  {
    Pow2(tableLog) - LowCount(norm, |norm|)
  }

  /** How many of the first `i` visited cells are ordinary. */
  function Kept(i: nat, high: int, tableLog: nat): (k: nat)
    ensures k <= i
  {
    if i == 0 then 0 else Kept(i - 1, high, tableLog) + (if Visit(i - 1, tableLog) < high then 1 else 0)
  }

  /** The symbol that owns the `k`-th ordinary cell, among the first `m` symbols. */
  function SymbolAt(norm: seq<int>, m: nat, k: nat): (s: nat)
    requires m <= |norm| && k < Regular(norm, m)
    ensures s < m && Regular(norm, s) <= k < Regular(norm, s + 1)
  {
    if k >= Regular(norm, m - 1) then m - 1 else SymbolAt(norm, m - 1, k)
  }

  lemma SymbolAtUnique(norm: seq<int>, m: nat, k: nat, s: nat)
    requires m <= |norm| && k < Regular(norm, m)
    requires s < m && Regular(norm, s) <= k < Regular(norm, s + 1)
    ensures SymbolAt(norm, m, k) == s
  {
    var t := SymbolAt(norm, m, k);
    if t < s { CumMono(norm, t + 1, s); }
    if s < t { CumMono(norm, s + 1, t); }
  }

  lemma KeptNext(i: nat, high: int, tableLog: nat)
    ensures Kept(0, high, tableLog) == 0
    ensures Kept(i + 1, high, tableLog) == Kept(i, high, tableLog) + (if Visit(i, tableLog) < high then 1 else 0)
  {}

  lemma {:induction false} KeptMono(i: nat, j: nat, high: int, tableLog: nat)
    requires i <= j
    ensures Kept(i, high, tableLog) <= Kept(j, high, tableLog)
    ensures i < j && Visit(i, tableLog) < high ==> Kept(i, high, tableLog) < Kept(j, high, tableLog)
    decreases j
  {
    if i < j { KeptMono(i, j - 1, high, tableLog); }
  }

  /** Low-probability symbols take the cells from the top down; the ordinary ones
      take the remaining cells in the order of the walk, each as often as its
      counter says. */
  ghost predicate IsSpread(cells: seq<int>, norm: seq<int>, tableLog: nat)
    requires ValidNorm(norm, tableLog)
  {
    var high := Ordinary(norm, tableLog);
    && |cells| == Pow2(tableLog)
    && (forall s {:trigger LowCell(norm, tableLog, s)} :: 0 <= s < |norm| && norm[s] < 0 ==>
          cells[LowCell(norm, tableLog, s)] == s)
    && (forall j {:trigger cells[Visit(j, tableLog)]} :: 0 <= j < Pow2(tableLog) && Visit(j, tableLog) < high ==>
          Owns(norm, tableLog, Kept(j, high, tableLog), cells[Visit(j, tableLog)]))
  }

  /** The cell of a low-probability symbol. */
  function LowCell(norm: seq<int>, tableLog: nat, s: nat): (u: nat)
    requires Cum(norm, |norm|) == Pow2(tableLog)
    requires s < |norm| && norm[s] < 0
    ensures Ordinary(norm, tableLog) <= u < Pow2(tableLog)
  {
    CumMono(norm, s + 1, |norm|);
    CumParts(norm, |norm|);
    Pow2(tableLog) - 1 - LowCount(norm, s)
  }

  /** The symbol `s` owns the `k`-th ordinary cell. */
  ghost predicate Owns(norm: seq<int>, tableLog: nat, k: nat, s: int)
  {
    0 <= s < |norm| && Regular(norm, s) <= k < Regular(norm, s + 1)
  }

  /** The table built one cell at a time, unfilled cells holding -1. */
  ghost function LowPlaced(norm: seq<int>, tableLog: nat, k: nat): (cells: seq<int>)
    requires Cum(norm, |norm|) == Pow2(tableLog) && k <= |norm|
    ensures |cells| == Pow2(tableLog)
  {
    if k == 0 then seq(Pow2(tableLog), _ => -1)
    else if norm[k - 1] < 0 then LowPlaced(norm, tableLog, k - 1)[LowCell(norm, tableLog, k - 1) := k - 1]
    else LowPlaced(norm, tableLog, k - 1)
  }

  ghost function Placed(norm: seq<int>, tableLog: nat, i: nat): (cells: seq<int>)
    requires ValidNorm(norm, tableLog) && i <= Pow2(tableLog)
    requires Kept(i, Ordinary(norm, tableLog), tableLog) <= Regular(norm, |norm|)
    ensures |cells| == Pow2(tableLog)
  {
    var high := Ordinary(norm, tableLog);
    if i == 0 then LowPlaced(norm, tableLog, |norm|)
    else
      var before := Placed(norm, tableLog, i - 1);
      if Visit(i - 1, tableLog) < high
      then before[Visit(i - 1, tableLog) := SymbolAt(norm, |norm|, Kept(i - 1, high, tableLog))]
      else before
  }

  lemma {:induction false} KeptCount(i: nat, high: nat, tableLog: nat)
    requires tableLog >= 4 && i <= Pow2(tableLog) && high <= Pow2(tableLog)
    ensures Kept(i, high, tableLog) + Rank(Unreached(i, tableLog), high, 1) == high
  {
    if i == 0 {
      RankAll(Pow2(tableLog), 1, high);
    } else {
      KeptCount(i - 1, high, tableLog);
      UnreachedCells(i - 1, tableLog);
      RankUpdate(Unreached(i - 1, tableLog), high, 1, Visit(i - 1, tableLog), 0);
    }
  }

  /** One turn of the walk meets every ordinary cell. */
  lemma KeptTotal(norm: seq<int>, tableLog: nat)
    requires ValidNorm(norm, tableLog)
    ensures 0 <= Ordinary(norm, tableLog) == Regular(norm, |norm|)
    ensures Kept(Pow2(tableLog), Ordinary(norm, tableLog), tableLog) == Regular(norm, |norm|)
  {
    var n := Pow2(tableLog);
    CumParts(norm, |norm|);
    var high := Ordinary(norm, tableLog);
    KeptCount(n, high, tableLog);
    UnreachedCells(n, tableLog);
    RankNone(Unreached(n, tableLog), n, 1);
    RankNone(Unreached(n, tableLog), high, 1);
  }

  lemma {:induction false} LowPlacedBelow(norm: seq<int>, tableLog: nat, k: nat, u: nat)
    requires ValidNorm(norm, tableLog) && k <= |norm| && u < Pow2(tableLog) - LowCount(norm, k)
    ensures LowPlaced(norm, tableLog, k)[u] == -1
    decreases k
  {
    if k > 0 { LowPlacedBelow(norm, tableLog, k - 1, u); }
  }

  lemma {:induction false} LowPlacedRank(norm: seq<int>, tableLog: nat, k: nat, s: nat)
    requires ValidNorm(norm, tableLog) && k <= |norm|
    ensures Rank(LowPlaced(norm, tableLog, k), Pow2(tableLog), s) ==
            if s < k && norm[s] < 0 then 1 else 0
    decreases k
  {
    var n := Pow2(tableLog);
    if k == 0 {
      RankNone(LowPlaced(norm, tableLog, 0), n, s);
    } else {
      LowPlacedRank(norm, tableLog, k - 1, s);
      if norm[k - 1] < 0 {
        var at := LowCell(norm, tableLog, k - 1);
        CumMono(norm, k, |norm|);
        LowPlacedBelow(norm, tableLog, k - 1, at);
        RankUpdate(LowPlaced(norm, tableLog, k - 1), n, s, at, k - 1);
      }
    }
  }

  lemma {:induction false} LowPlacedAt(norm: seq<int>, tableLog: nat, k: nat, s: nat)
    requires ValidNorm(norm, tableLog) && s < k <= |norm| && norm[s] < 0
    ensures LowPlaced(norm, tableLog, k)[LowCell(norm, tableLog, s)] == s
    decreases k
  {
    if s < k - 1 {
      LowPlacedAt(norm, tableLog, k - 1, s);
      CumMono(norm, s + 1, k - 1);
    }
  }

  /** How many of its ordinary cells a symbol has when `k` of them are given out. */
  function Given(norm: seq<int>, s: nat, k: nat): nat
    requires s < |norm|
  {
    if k <= Regular(norm, s) then 0
    else if k <= Regular(norm, s + 1) then k - Regular(norm, s)
    else Regular(norm, s + 1) - Regular(norm, s)
  }

  /** Cells still ahead of the walk are unfilled. */
  lemma {:induction false} PlacedAhead(norm: seq<int>, tableLog: nat, i: nat, j: nat)
    requires ValidNorm(norm, tableLog) && i <= j < Pow2(tableLog)
    requires Kept(i, Ordinary(norm, tableLog), tableLog) <= Regular(norm, |norm|)
    requires Visit(j, tableLog) < Ordinary(norm, tableLog)
    ensures Placed(norm, tableLog, i)[Visit(j, tableLog)] == -1
    decreases i
  {
    hide Low, Shr, Shl, Pow2, Times, Step, Visit;
    if i == 0 {
      LowPlacedBelow(norm, tableLog, |norm|, Visit(j, tableLog));
    } else {
      PlacedAhead(norm, tableLog, i - 1, j);
      VisitInjective(i - 1, j, tableLog);
    }
  }

  /** Cells behind it have their owner. */
  lemma {:induction false} PlacedBehind(norm: seq<int>, tableLog: nat, i: nat, j: nat)
    requires ValidNorm(norm, tableLog) && j < i <= Pow2(tableLog)
    requires Kept(i, Ordinary(norm, tableLog), tableLog) <= Regular(norm, |norm|)
    requires Visit(j, tableLog) < Ordinary(norm, tableLog)
    ensures Owns(norm, tableLog, Kept(j, Ordinary(norm, tableLog), tableLog), Placed(norm, tableLog, i)[Visit(j, tableLog)])
    decreases i
  {
    hide Low, Shr, Shl, Pow2, Times, Step, Visit;
    if j < i - 1 {
      PlacedBehind(norm, tableLog, i - 1, j);
      VisitInjective(j, i - 1, tableLog);
    }
  }

  lemma {:induction false} PlacedLow(norm: seq<int>, tableLog: nat, i: nat, s: nat)
    requires ValidNorm(norm, tableLog) && i <= Pow2(tableLog) && s < |norm| && norm[s] < 0
    requires Kept(i, Ordinary(norm, tableLog), tableLog) <= Regular(norm, |norm|)
    ensures Placed(norm, tableLog, i)[LowCell(norm, tableLog, s)] == s
    decreases i
  {
    hide Low, Shr, Shl, Pow2, Times, Step, Visit;
    if i == 0 { LowPlacedAt(norm, tableLog, |norm|, s); } else { PlacedLow(norm, tableLog, i - 1, s); }
  }

  /** The cells a symbol has been given once `k` ordinary cells are filled. */
  ghost predicate RankIs(cells: seq<int>, norm: seq<int>, s: nat, k: nat)
    requires s < |norm|
  {
    Rank(cells, |cells|, s) == (if norm[s] < 0 then 1 else 0) + Given(norm, s, k)
  }

  lemma {:induction false} PlacedRank(norm: seq<int>, tableLog: nat, i: nat, s: nat)
    requires ValidNorm(norm, tableLog) && i <= Pow2(tableLog) && s < |norm|
    requires Kept(i, Ordinary(norm, tableLog), tableLog) <= Regular(norm, |norm|)
    ensures RankIs(Placed(norm, tableLog, i), norm, s, Kept(i, Ordinary(norm, tableLog), tableLog))
    decreases i
  {
    hide Low, Shr, Shl, Pow2, Times, Step, Visit;
    if i == 0 {
      LowPlacedRank(norm, tableLog, |norm|, s);
    } else {
      PlacedRank(norm, tableLog, i - 1, s);
      PlacedRankNext(norm, tableLog, i - 1, s);
    }
  }

  lemma PlacedRankNext(norm: seq<int>, tableLog: nat, i: nat, s: nat)
    requires ValidNorm(norm, tableLog) && i < Pow2(tableLog) && s < |norm|
    requires Kept(i + 1, Ordinary(norm, tableLog), tableLog) <= Regular(norm, |norm|)
    requires RankIs(Placed(norm, tableLog, i), norm, s, Kept(i, Ordinary(norm, tableLog), tableLog))
    ensures RankIs(Placed(norm, tableLog, i + 1), norm, s, Kept(i + 1, Ordinary(norm, tableLog), tableLog))
  {
    hide Low, Shr, Shl, Pow2, Times, Step, Visit;
    var high := Ordinary(norm, tableLog);
    if Visit(i, tableLog) < high {
      PlacedAhead(norm, tableLog, i, i);
      FillRank(Placed(norm, tableLog, i), norm, s, Visit(i, tableLog), Kept(i, high, tableLog));
    }
  }

  lemma FillRank(before: seq<int>, norm: seq<int>, s: nat, at: nat, k: nat)
    requires s < |norm| && k < Regular(norm, |norm|)
    requires at < |before| && before[at] == -1 && RankIs(before, norm, s, k)
    ensures RankIs(before[at := SymbolAt(norm, |norm|, k)], norm, s, k + 1)
  {
    hide Low, Shr, Shl, Pow2, Times, Step, Visit;
    RankUpdate(before, |before|, s, at, SymbolAt(norm, |norm|, k));
    GivenStep(norm, s, k);
  }

  lemma GivenStep(norm: seq<int>, s: nat, k: nat)
    requires s < |norm| && k < Regular(norm, |norm|)
    ensures Given(norm, s, k + 1) == Given(norm, s, k) + (if SymbolAt(norm, |norm|, k) == s then 1 else 0)
  {
    if Regular(norm, s) <= k < Regular(norm, s + 1) {
      SymbolAtUnique(norm, |norm|, k, s);
    }
    CumMono(norm, s, s + 1);
  }

  lemma GivenAll(norm: seq<int>, s: nat)
    requires s < |norm| && norm[s] >= -1
    ensures (if norm[s] < 0 then 1 else 0) + Given(norm, s, Regular(norm, |norm|)) == Weight(norm[s])
  {
    CumMono(norm, s + 1, |norm|);
    CumMono(norm, s, s + 1);
  }

  lemma {:induction false} LowSymbolOf(norm: seq<int>, k: nat, c: nat) returns (s: nat)
    requires k <= |norm| && c < LowCount(norm, k)
    ensures s < k && norm[s] < 0 && LowCount(norm, s) == c
    decreases k
  {
    if c < LowCount(norm, k - 1) {
      s := LowSymbolOf(norm, k - 1, c);
    } else {
      s := k - 1;
    }
  }

  /** There is one spread of a norm, so two builders that follow it agree. */
  lemma SpreadIsPlaced(cells: seq<int>, norm: seq<int>, tableLog: nat)
    requires ValidNorm(norm, tableLog) && IsSpread(cells, norm, tableLog)
    requires Kept(Pow2(tableLog), Ordinary(norm, tableLog), tableLog) <= Regular(norm, |norm|)
    ensures cells == Placed(norm, tableLog, Pow2(tableLog))
  {
    var n, high := Pow2(tableLog), Ordinary(norm, tableLog);
    var placed := Placed(norm, tableLog, n);
    forall u | 0 <= u < n ensures cells[u] == placed[u] {
      var j := VisitSurjective(u, tableLog);
      if u < high {
        var k := Kept(j, high, tableLog);
        PlacedBehind(norm, tableLog, n, j);
        OwnerUnique(norm, tableLog, k, cells[u], placed[u]);
      } else {
        var s := LowSymbolOf(norm, |norm|, n - 1 - u);
        PlacedLow(norm, tableLog, n, s);
        assert LowCell(norm, tableLog, s) == u;
      }
    }
  }

  lemma OwnerUnique(norm: seq<int>, tableLog: nat, k: nat, s: int, t: int)
    requires Owns(norm, tableLog, k, s) && Owns(norm, tableLog, k, t)
    ensures s == t
  {
    if s < t { CumMono(norm, s + 1, t); }
    if t < s { CumMono(norm, t + 1, s); }
  }

  lemma SpreadUnique(a: seq<int>, b: seq<int>, norm: seq<int>, tableLog: nat)
    requires ValidNorm(norm, tableLog)
    requires IsSpread(a, norm, tableLog) && IsSpread(b, norm, tableLog)
    ensures a == b
  {
    KeptTotal(norm, tableLog);
    SpreadIsPlaced(a, norm, tableLog);
    SpreadIsPlaced(b, norm, tableLog);
  }

  /** In a spread table each symbol has exactly as many cells as its counter
      says, and no cell holds anything else. */
  lemma SpreadCounts(cells: seq<int>, norm: seq<int>, tableLog: nat)
    requires ValidNorm(norm, tableLog) && IsSpread(cells, norm, tableLog)
    ensures forall s :: 0 <= s < |norm| ==> Rank(cells, |cells|, s) == Weight(norm[s])
    ensures forall u :: 0 <= u < |cells| ==> 0 <= cells[u] < |norm|
  {
    hide Low, Shr, Shl, Pow2, Times, Step, Visit, Placed, Kept;
    var n, high := Pow2(tableLog), Ordinary(norm, tableLog);
    KeptTotal(norm, tableLog);
    SpreadIsPlaced(cells, norm, tableLog);
    forall s | 0 <= s < |norm| ensures Rank(cells, |cells|, s) == Weight(norm[s]) {
      PlacedRank(norm, tableLog, n, s);
      GivenAll(norm, s);
    }
    forall u | 0 <= u < n ensures 0 <= cells[u] < |norm| {
      var j := VisitSurjective(u, tableLog);
      if u >= high {
        var s := LowSymbolOf(norm, |norm|, n - 1 - u);
        assert LowCell(norm, tableLog, s) == u;
      } else {
        assert Owns(norm, tableLog, Kept(j, high, tableLog), cells[u]);
      }
    }
  }

  /** The spread of a norm. */
  ghost function SpreadOf(norm: seq<int>, tableLog: nat): (cells: seq<int>)
    requires ValidNorm(norm, tableLog)
    ensures |cells| == Pow2(tableLog) && IsSpread(cells, norm, tableLog)
  {
    KeptTotal(norm, tableLog);
    PlacedIsSpread(norm, tableLog);
    var cells: seq<int> :| IsSpread(cells, norm, tableLog);
    cells
  }

  lemma PlacedIsSpread(norm: seq<int>, tableLog: nat)
    requires ValidNorm(norm, tableLog)
    requires Kept(Pow2(tableLog), Ordinary(norm, tableLog), tableLog) <= Regular(norm, |norm|)
    ensures IsSpread(Placed(norm, tableLog, Pow2(tableLog)), norm, tableLog)
  {
    hide Low, Shr, Shl, Pow2, Times, Step, Visit, Placed;
    var n, high := Pow2(tableLog), Ordinary(norm, tableLog);
    forall s | 0 <= s < |norm| && norm[s] < 0
      ensures Placed(norm, tableLog, n)[LowCell(norm, tableLog, s)] == s
    {
      PlacedLow(norm, tableLog, n, s);
    }
    forall j | 0 <= j < n && Visit(j, tableLog) < high
      ensures Owns(norm, tableLog, Kept(j, high, tableLog), Placed(norm, tableLog, n)[Visit(j, tableLog)])
    {
      PlacedBehind(norm, tableLog, n, j);
    }
  }

  // ----- the two ways of spreading -----

  /** A byte repeated eight times, as one 64-bit word. */
  const EIGHT_ONES := 0x0101_0101_0101_0101

  function Ones(k: nat): nat
  {
    if k == 0 then 0 else 1 + 256 * Ones(k - 1)
  }

  lemma {:induction false} Copies(s: Byte, k: nat)
    ensures LeBytes(s * Ones(k), k) == seq(k, _ => s)
  {
    if k > 0 {
      Copies(s, k - 1);
      var y := s * Ones(k - 1);
      assert s * Ones(k) == s + 256 * y;
      assert (s + 256 * y) % 256 == s && (s + 256 * y) / 256 == y;
    }
  }

  lemma EightCopies(s: Byte)
    ensures LeBytes(s * EIGHT_ONES, 8) == seq(8, _ => s)
  {
    assert Ones(8) == EIGHT_ONES;
    Copies(s, 8);
  }

  /** Without low-probability symbols: the symbols are first laid down in order,
      eight bytes at a time, writing past the end of each run, and then carried to
      their cells two per turn of the loop. */
  method SpreadFast(cells: array<int>, norm: seq<int>, tableLog: nat) returns (position: nat)
    requires ValidNorm(norm, tableLog) && LowCount(norm, |norm|) == 0
    requires cells.Length == Pow2(tableLog)
    modifies cells
    ensures position == 0
    ensures IsSpread(cells[..], norm, tableLog)
  {
    hide Low, Shr, Shl, Pow2, Times, Step, Visit, Wrap, Kept;
    var tableSize := Pow2(tableLog);
    var spread := LayDown(norm, tableLog);
    position := 0;
    var s := 0;
    var step := Step(tableLog);
    KeptTotal(norm, tableLog);
    VisitStart(tableLog);
    EvenTable(tableLog);
    while s < tableSize
      invariant s % 2 == 0 && s <= tableSize
      invariant position == Visit(s, tableLog)
      invariant forall j :: 0 <= j < s ==> cells[Visit(j, tableLog)] == spread[j]
      invariant forall k :: 0 <= k < tableSize ==> Owns(norm, tableLog, k, spread[k])
    {
      VisitNext(s, tableLog);
      VisitTwice(s, tableLog);
      VisitSelf(s, tableLog);
      forall j | 0 <= j < s
        ensures Visit(j, tableLog) != Visit(s, tableLog) && Visit(j, tableLog) != Visit(s + 1, tableLog)
      {
        VisitInjective(j, s, tableLog);
        VisitInjective(j, s + 1, tableLog);
      }
      VisitInjective(s, s + 1, tableLog);
      cells[Wrap(position, tableLog)] := spread[s];
      cells[Wrap(position + step, tableLog)] := spread[s + 1];
      position := Wrap(position + 2 * step, tableLog);
      s := s + 2;
    }
    forall j | 0 <= j < tableSize && Visit(j, tableLog) < Ordinary(norm, tableLog)
      ensures Owns(norm, tableLog, Kept(j, Ordinary(norm, tableLog), tableLog), cells[Visit(j, tableLog)])
    {
      KeptAll(j, tableLog);
      assert cells[Visit(j, tableLog)] == spread[j];
    }
    NoLow(norm, |norm|);
  }

  lemma EvenTable(tableLog: nat)
    requires tableLog > 0
    ensures Pow2(tableLog) % 2 == 0
  {}

  lemma VisitTwice(i: nat, tableLog: nat)
    ensures Visit(i + 2, tableLog) == Low(Visit(i, tableLog) + 2 * Step(tableLog), tableLog)
  {
    hide Low, Shr, Shl, Pow2, Step, Visit;
    VisitNext(i, tableLog);
    VisitNext(i + 1, tableLog);
    LowAdd(Visit(i, tableLog) + Step(tableLog), Step(tableLog), tableLog);
  }

  lemma VisitSelf(i: nat, tableLog: nat)
    ensures Low(Visit(i, tableLog), tableLog) == Visit(i, tableLog)
  {
    hide Low, Visit;
    LowSmall(Visit(i, tableLog), tableLog);
  }

  lemma {:induction false} KeptAll(i: nat, tableLog: nat)
    ensures Kept(i, Pow2(tableLog), tableLog) == i
  {
    hide Visit, Pow2;
    if i > 0 { KeptAll(i - 1, tableLog); }
  }

  lemma {:induction false} NoLow(norm: seq<int>, k: nat)
    requires k <= |norm| && LowCount(norm, k) == 0
    ensures forall s :: 0 <= s < k ==> norm[s] >= 0
  {
    if k > 0 { NoLow(norm, k - 1); }
  }

  method LayDown(norm: seq<int>, tableLog: nat) returns (spread: array<Byte>)
    requires ValidNorm(norm, tableLog) && LowCount(norm, |norm|) == 0
    ensures fresh(spread) && spread.Length == Pow2(tableLog) + 8
    ensures forall k :: 0 <= k < Pow2(tableLog) ==> Owns(norm, tableLog, k, spread[k])
  {
    hide Pow2, LeBytes;
    NoLow(norm, |norm|);
    CumParts(norm, |norm|);
    spread := new Byte[Pow2(tableLog) + 8];
    var pos, sv := 0, 0;
    for s := 0 to |norm|
      invariant pos == Regular(norm, s) && sv == s * EIGHT_ONES
      invariant pos <= Pow2(tableLog)
      invariant forall k :: 0 <= k < pos ==> Owns(norm, tableLog, k, spread[k])
    {
      CumMono(norm, s + 1, |norm|);
      EightCopies(s);
      var n := norm[s];
      WriteLE64(spread, pos, sv);
      var i := 8;
      while i < n
        invariant 8 <= i < n + 8 || i == 8
        invariant forall k :: 0 <= k < pos ==> Owns(norm, tableLog, k, spread[k])
        invariant forall k :: pos <= k < pos + i && k < spread.Length ==> spread[k] == s
      {
        WriteLE64(spread, pos + i, sv);
        i := i + 8;
      }
      pos := pos + n;
      sv := sv + EIGHT_ONES;
    }
  }

  /** The table after `i` steps of the walk. */
  ghost predicate SpreadUpTo(cells: seq<int>, norm: seq<int>, tableLog: nat, i: nat)
    requires ValidNorm(norm, tableLog)
  {
    var high := Ordinary(norm, tableLog);
    && |cells| == Pow2(tableLog)
    && (forall s :: 0 <= s < |norm| && norm[s] < 0 ==> cells[LowCell(norm, tableLog, s)] == s)
    && (forall j :: 0 <= j < i && Visit(j, tableLog) < high ==>
          Owns(norm, tableLog, Kept(j, high, tableLog), cells[Visit(j, tableLog)]))
  }

  lemma SpreadOne(cells: seq<int>, norm: seq<int>, tableLog: nat, i: nat, symbol: int)
    requires ValidNorm(norm, tableLog) && SpreadUpTo(cells, norm, tableLog, i)
    requires i < Pow2(tableLog) && Visit(i, tableLog) < Ordinary(norm, tableLog)
    requires Owns(norm, tableLog, Kept(i, Ordinary(norm, tableLog), tableLog), symbol)
    ensures SpreadUpTo(cells[Visit(i, tableLog) := symbol], norm, tableLog, i + 1)
  {
    hide Low, Shr, Shl, Pow2, Times, Step, Visit, Kept, LowCell;
    forall j | 0 <= j < i ensures Visit(j, tableLog) != Visit(i, tableLog) { VisitInjective(j, i, tableLog); }
  }

  lemma SpreadDone(cells: seq<int>, norm: seq<int>, tableLog: nat, i: nat)
    requires ValidNorm(norm, tableLog) && SpreadUpTo(cells, norm, tableLog, i) && i <= Pow2(tableLog)
    requires Kept(i, Ordinary(norm, tableLog), tableLog) == Regular(norm, |norm|)
    ensures IsSpread(cells, norm, tableLog)
    ensures i < Pow2(tableLog) ==> Visit(i, tableLog) >= Ordinary(norm, tableLog)
  {
    hide Low, Shr, Shl, Pow2, Times, Step, Visit, Kept, LowCell;
    KeptTotal(norm, tableLog);
    forall j | i <= j < Pow2(tableLog) ensures Visit(j, tableLog) >= Ordinary(norm, tableLog) {
      KeptMono(i, j, Ordinary(norm, tableLog), tableLog);
      KeptMono(j, Pow2(tableLog), Ordinary(norm, tableLog), tableLog);
    }
  }

  /** The walk starts again after a whole turn. */
  lemma VisitPeriod(i: nat, tableLog: nat)
    ensures Visit(i + Pow2(tableLog), tableLog) == Visit(i, tableLog)
  {
    hide Low, Shr, Shl, Pow2, Times, Step;
    var n, p := Pow2(tableLog), Step(tableLog);
    TimesAdd(i, n, p);
    TimesPow2(tableLog, p);
    LowZero(p, tableLog);
    LowAdd(Shl(p, tableLog), Times(i, p), tableLog);
  }

  lemma LowZero(q: nat, n: nat)
    ensures Low(Shl(q, n), n) == 0
  {
    hide Low, Shl;
    Join(0, q, n);
  }

  lemma {:induction false} KeptPeriod(i: nat, high: int, tableLog: nat)
    ensures Kept(i + Pow2(tableLog), high, tableLog) == Kept(i, high, tableLog) + Kept(Pow2(tableLog), high, tableLog)
    decreases i
  {
    hide Pow2, Visit;
    if i > 0 {
      KeptPeriod(i - 1, high, tableLog);
      VisitPeriod(i - 1, tableLog);
    }
  }

  lemma KeptTurn(high: nat, tableLog: nat)
    requires tableLog >= 4 && high <= Pow2(tableLog)
    ensures Kept(Pow2(tableLog), high, tableLog) == high
  {
    hide Low, Shl, Pow2, Visit, Kept;
    var n := Pow2(tableLog);
    KeptCount(n, high, tableLog);
    UnreachedCells(n, tableLog);
    RankNone(Unreached(n, tableLog), n, 1);
    RankNone(Unreached(n, tableLog), high, 1);
  }

  /** A walk below `high` is at 0 exactly when it has made whole turns. */
  lemma {:induction false} WholeTurns(i: nat, high: nat, tableLog: nat)
    requires tableLog >= 4 && 0 < high <= Pow2(tableLog) && Visit(i, tableLog) < high
    ensures Visit(i, tableLog) == 0 <==> Kept(i, high, tableLog) % high == 0
    decreases i
  {
    hide Low, Shl, Shr, Pow2, Visit, Kept;
    var n := Pow2(tableLog);
    VisitStart(tableLog);
    KeptNext(0, high, tableLog);
    KeptTurn(high, tableLog);
    if i >= n {
      WholeTurnsBefore(i - n, high, tableLog);
    } else if i > 0 {
      VisitInjective(0, i, tableLog);
      KeptMono(0, i, high, tableLog);
      KeptMono(i, n, high, tableLog);
    }
  }

  lemma {:induction false} WholeTurnsBefore(i: nat, high: nat, tableLog: nat)
    requires tableLog >= 4 && 0 < high <= Pow2(tableLog) && Visit(i + Pow2(tableLog), tableLog) < high
    ensures var k := i + Pow2(tableLog); Visit(k, tableLog) == 0 <==> Kept(k, high, tableLog) % high == 0
    decreases i + Pow2(tableLog), 0
  {
    hide Low, Shl, Shr, Visit, Kept;
    VisitPeriod(i, tableLog);
    KeptPeriod(i, high, tableLog);
    KeptTurn(high, tableLog);
    WholeTurns(i, high, tableLog);
    OneTurnMore(Kept(i, high, tableLog), high);
  }

  lemma OneTurnMore(a: nat, n: nat)
    requires n > 0
    ensures (a + n) % n == a % n
  {
    var q := a / n;
    assert a == q * n + a % n;
    assert (q + 1) * n == q * n + n;
    Remainder(a + n, q + 1, a % n, n);
  }

  /** With low-probability symbols in place above `high`: each ordinary symbol takes the
      next cells of the walk, skipping that area.  Counters that add up fill the table
      by the rules.  Whatever they are, the walk ends at 0 exactly when they make whole
      turns of the ordinary cells. */
  method SpreadSkipping(cells: array<int>, norm: seq<int>, tableLog: nat, high: int) returns (position: nat)
    requires tableLog >= 4 && high == Ordinary(norm, tableLog) && Spreadable(norm, tableLog)
    requires cells.Length == Pow2(tableLog)
    requires ValidNorm(norm, tableLog) ==> SpreadUpTo(cells[..], norm, tableLog, 0)
    modifies cells
    ensures position == 0 <==> high == 0 || Regular(norm, |norm|) % high == 0
    ensures ValidNorm(norm, tableLog) ==> position == 0 && IsSpread(cells[..], norm, tableLog)
  {
    hide Low, Shr, Shl, Pow2, Times, Step, Visit, Wrap, Kept, SpreadUpTo, IsSpread, Regular, Cum, LowCount, ValidNorm;
    ghost var i: nat := 0;
    VisitStart(tableLog);
    KeptNext(0, high, tableLog);
    RegularNext(norm, 0);
    position := 0;
    for symbol := 0 to |norm|
      invariant position == Visit(i, tableLog) && (i == 0 || position < high)
      invariant Kept(i, high, tableLog) == Regular(norm, symbol)
      invariant ValidNorm(norm, tableLog) ==> i <= cells.Length && SpreadUpTo(cells[..], norm, tableLog, i)
    {
      position, i := SpreadSymbol(cells, norm, tableLog, high, symbol, position, i);
    }
    if high > 0 { WholeTurns(i, high, tableLog); }
    if ValidNorm(norm, tableLog) {
      SpreadDone(cells[..], norm, tableLog, i);
      KeptTotal(norm, tableLog);
      SameRemainder(high);
    }
  }

  lemma SameRemainder(n: nat)
    ensures n > 0 ==> n % n == 0
  {}

  /** No counter is below -1, and there is a cell for an ordinary symbol if there is any. */
  ghost predicate Spreadable(norm: seq<int>, tableLog: nat)
  {
    && |norm| > 0 && (forall s :: 0 <= s < |norm| ==> norm[s] >= -1)
    && 0 <= Ordinary(norm, tableLog) && (Ordinary(norm, tableLog) == 0 ==> Regular(norm, |norm|) == 0)
  }

  lemma ValidSpreads(norm: seq<int>, tableLog: nat)
    requires ValidNorm(norm, tableLog)
    ensures Spreadable(norm, tableLog)
  {
    KeptTotal(norm, tableLog);
  }

  method SpreadSymbol(cells: array<int>, norm: seq<int>, tableLog: nat, high: int, symbol: nat,
                      position: nat, ghost i: nat)
    returns (next: nat, ghost k: nat)
    requires tableLog >= 4 && high == Ordinary(norm, tableLog) && Spreadable(norm, tableLog)
    requires cells.Length == Pow2(tableLog) && symbol < |norm|
    requires position == Visit(i, tableLog) && (i == 0 || position < high)
    requires Kept(i, high, tableLog) == Regular(norm, symbol)
    requires ValidNorm(norm, tableLog) ==> i <= cells.Length && SpreadUpTo(cells[..], norm, tableLog, i)
    modifies cells
    ensures next == Visit(k, tableLog) && (k == 0 || next < high)
    ensures Kept(k, high, tableLog) == Regular(norm, symbol + 1)
    ensures ValidNorm(norm, tableLog) ==> k <= cells.Length && SpreadUpTo(cells[..], norm, tableLog, k)
  {
    hide Low, Shr, Shl, Pow2, Times, Step, Visit, Wrap, Kept, SpreadUpTo, IsSpread, Regular, Cum, LowCount, ValidNorm;
    VisitStart(tableLog);
    CumMono(norm, symbol + 1, |norm|);
    RegularNext(norm, symbol);
    next, k := position, i;
    var occurrence := 0;
    while occurrence < norm[symbol]
      invariant 0 <= occurrence <= if norm[symbol] < 0 then 0 else norm[symbol]
      invariant next == Visit(k, tableLog) && (k == 0 || next < high)
      invariant Kept(k, high, tableLog) == Regular(norm, symbol) + occurrence
      invariant ValidNorm(norm, tableLog) ==> k <= cells.Length && SpreadUpTo(cells[..], norm, tableLog, k)
    {
      ghost var before := cells[..];
      cells[next] := symbol;
      assert cells[..] == before[next := symbol];
      ghost var from := k;
      next, k := NextCell(next, tableLog, high, k);
      if ValidNorm(norm, tableLog) {
        PutOne(before, norm, tableLog, from, symbol, occurrence);
        SpreadSkip(cells[..], norm, tableLog, from + 1, k);
      }
      occurrence := occurrence + 1;
    }
  }

  /** The walk is still in its first turn while cells are left for it. */
  lemma PutOne(cells: seq<int>, norm: seq<int>, tableLog: nat, i: nat, symbol: nat, occurrence: nat)
    requires ValidNorm(norm, tableLog) && symbol < |norm| && occurrence < norm[symbol]
    requires i <= |cells| && SpreadUpTo(cells, norm, tableLog, i) && Visit(i, tableLog) < Ordinary(norm, tableLog)
    requires Kept(i, Ordinary(norm, tableLog), tableLog) == Regular(norm, symbol) + occurrence
    ensures i < |cells| && SpreadUpTo(cells[Visit(i, tableLog) := symbol], norm, tableLog, i + 1)
  {
    hide Low, Shr, Shl, Pow2, Times, Step, Visit, Kept, Cum, LowCount, Regular;
    KeptTotal(norm, tableLog);
    CumMono(norm, symbol + 1, |norm|);
    RegularNext(norm, symbol);
    SpreadOne(cells, norm, tableLog, i, symbol);
  }

  /** The next position of the walk below `high`. */
  method NextCell(position: nat, tableLog: nat, high: int, ghost i: nat) returns (next: nat, ghost k: nat)
    requires position == Visit(i, tableLog) < high
    ensures i < k && next == Visit(k, tableLog) < high && (i < Pow2(tableLog) ==> k <= Pow2(tableLog))
    ensures forall j :: i < j < k ==> Visit(j, tableLog) >= high
    ensures Kept(k, high, tableLog) == Kept(i, high, tableLog) + 1
  {
    hide Low, Shr, Shl, Pow2, Times, Step, Visit, Wrap, Kept;
    Advance(i, tableLog);
    KeptNext(i, high, tableLog);
    VisitStart(tableLog);
    VisitPeriod(i, tableLog);
    next, k := Wrap(position + Step(tableLog), tableLog), i + 1;
    while next > high - 1
      invariant i < k <= i + Pow2(tableLog) && next == Visit(k, tableLog)
      invariant i < Pow2(tableLog) ==> k <= Pow2(tableLog)
      invariant forall j :: i < j < k ==> Visit(j, tableLog) >= high
      invariant Kept(k, high, tableLog) == Kept(i, high, tableLog) + 1
      decreases i + Pow2(tableLog) - k
    {
      Advance(k, tableLog);
      KeptNext(k, high, tableLog);
      next, k := Wrap(next + Step(tableLog), tableLog), k + 1;
    }
  }

  lemma SpreadSkip(cells: seq<int>, norm: seq<int>, tableLog: nat, i: nat, k: nat)
    requires ValidNorm(norm, tableLog) && SpreadUpTo(cells, norm, tableLog, i) && i <= k
    requires forall j :: i <= j < k ==> Visit(j, tableLog) >= Ordinary(norm, tableLog)
    ensures SpreadUpTo(cells, norm, tableLog, k)
  {
    hide Low, Shr, Shl, Pow2, Times, Step, Visit, Kept, LowCell;
  }
}
