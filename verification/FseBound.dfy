/** When `FSE_BLOCKBOUND` is a bound: how often a symbol that costs eight or nine bits
    costs nine. */
module FseBound {
  import opened Bits
  import opened Counting
  import opened FseSpread
  import opened FseTable
  import opened FseCodec

  // ----- where the cells of a symbol lie -----

  /** How many of `n` visits from number `j` on are below `u`. */
  function Below(j: nat, n: nat, tableLog: nat, u: int): nat
  {
    if n == 0 then 0 else Below(j, n - 1, tableLog, u) + (if Visit(j + n - 1, tableLog) < u then 1 else 0)
  }

  lemma {:induction false} BelowMore(j: nat, n: nat, m: nat, tableLog: nat, u: int)
    requires n <= m
    ensures Below(j, n, tableLog, u) <= Below(j, m, tableLog, u)
    decreases m
  {
    hide Visit;
    if n < m { BelowMore(j, n, m - 1, tableLog, u); }
  }

  /** A visit of cell `u` counts for the next limit. */
  lemma {:induction false} BelowNext(j: nat, n: nat, tableLog: nat, u: int, i: int)
    ensures Below(j, n, tableLog, u) <= Below(j, n, tableLog, u + 1)
    ensures 0 <= i < n && Visit(j + i, tableLog) == u ==> Below(j, n, tableLog, u) < Below(j, n, tableLog, u + 1)
  {
    hide Visit;
    if n > 0 { BelowNext(j, n - 1, tableLog, u, i); }
  }

  lemma {:induction false} BelowNothing(j: nat, n: nat, tableLog: nat)
    ensures Below(j, n, tableLog, 0) == 0
  {
    if n > 0 { BelowNothing(j, n - 1, tableLog); }
  }

  /** Without low-probability symbols the cells of a symbol are consecutive visits. */
  lemma CellVisited(norm: seq<int>, tableLog: nat, u: nat) returns (i: nat)
    requires ValidNorm(norm, tableLog) && LowCount(norm, |norm|) == 0 && u < Pow2(tableLog)
    ensures var s := SpreadOf(norm, tableLog)[u];
      0 <= s < |norm| && i < norm[s] && Visit(Cum(norm, s) + i, tableLog) == u
  {
    hide Low, Shl, Shr, Pow2, Visit, Kept, Cum, Regular, LowCount, SpreadOf;
    var cells := SpreadOf(norm, tableLog);
    var j := VisitSurjective(u, tableLog);
    KeptAll(j, tableLog);
    assert Owns(norm, tableLog, j, cells[Visit(j, tableLog)]);
    var s := cells[u];
    NoLow(norm, |norm|);
    CumMono(norm, s, |norm|);
    CumMono(norm, s + 1, |norm|);
    CumParts(norm, s);
    RegularNext(norm, s);
    i := j - Cum(norm, s);
  }

  /** So the rank of a cell is bounded by a count of visits. */
  lemma {:induction false} RankBelow(norm: seq<int>, tableLog: nat, s: nat, u: nat)
    requires ValidNorm(norm, tableLog) && LowCount(norm, |norm|) == 0 && s < |norm| && u <= Pow2(tableLog)
    ensures norm[s] >= 0 && Rank(SpreadOf(norm, tableLog), u, s) <= Below(Cum(norm, s), norm[s], tableLog, u)
    decreases u
  {
    hide Low, Shl, Shr, Pow2, Visit, Cum, LowCount, SpreadOf, Below;
    NoLow(norm, |norm|);
    RankStart(SpreadOf(norm, tableLog));
    if u > 0 {
      RankBelow(norm, tableLog, s, u - 1);
      RankNext(SpreadOf(norm, tableLog), u - 1);
      var i := CellVisited(norm, tableLog, u - 1);
      BelowNext(Cum(norm, s), norm[s], tableLog, u - 1, i);
    }
  }

  // ----- the walk in blocks of 256 cells -----

  lemma LowOnce(x: nat, n: nat)
    requires x < 2 * Pow2(n)
    ensures Low(x, n) == if x < Pow2(n) then x else x - Pow2(n)
  {
    hide Low, Pow2;
    LowIsMod(x, n);
    if x < Pow2(n) { Remainder(x, 0, x, Pow2(n)); } else { Remainder(x, 1, x - Pow2(n), Pow2(n)); }
  }

  /** A walk from anywhere is the walk from 0, shifted. */
  lemma VisitShift(j: nat, i: nat, tableLog: nat)
    ensures var x := Visit(j, tableLog) + Visit(i, tableLog);
            Visit(j + i, tableLog) == if x < Pow2(tableLog) then x else x - Pow2(tableLog)
  {
    hide Low, Pow2, Times, Step;
    var p := Step(tableLog);
    TimesAdd(j, i, p);
    LowAdd(Times(j, p), Times(i, p), tableLog);
    LowAdd(Times(i, p), Visit(j, tableLog), tableLog);
    LowOnce(Visit(j, tableLog) + Visit(i, tableLog), tableLog);
  }

  function Inside(p: int, off: int, t: int, u: int): int { if (if p + off < t then p + off else p + off - t) < u then 1 else 0 }

  lemma BelowVisit(j: nat, i: nat, tableLog: nat, u: int)
    ensures Below(j, i + 1, tableLog, u) == Below(j, i, tableLog, u) + Inside(Visit(j, tableLog), Visit(i, tableLog), Pow2(tableLog), u)
  {
    hide Visit;
    VisitShift(j, i, tableLog);
  }

  lemma StepTo(i: nat, tableLog: nat, at: nat, next: nat)
    requires Visit(i, tableLog) == at && Step(tableLog) <= Pow2(tableLog)
    requires next == if at + Step(tableLog) < Pow2(tableLog) then at + Step(tableLog) else at + Step(tableLog) - Pow2(tableLog)
    ensures Visit(i + 1, tableLog) == next
  {
    hide Visit, Low, Pow2;
    VisitNext(i, tableLog);
    LowOnce(at + Step(tableLog), tableLog);
  }

  lemma BelowNone(j: nat, tableLog: nat, u: int)
    ensures Below(j, 0, tableLog, u) == 0
  {}

  lemma Steps()
    ensures Pow2(10) == 1024 && Step(10) == 643 && Pow2(11) == 2048 && Step(11) == 1283
    ensures Pow2(12) == 4096 && Step(12) == 2563
    ensures forall tableLog :: Visit(0, tableLog) == 0
  {
    hide Visit;
    Pow2Values();
    forall tableLog ensures Visit(0, tableLog) == 0 { VisitStart(tableLog); }
  }

  lemma Below10(j: nat, u: int)
    ensures var p := Visit(j, 10);
      Below(j, 3, 10, u) == Inside(p, 0, 1024, u) + Inside(p, 643, 1024, u) + Inside(p, 262, 1024, u)
  {
    hide Visit, Pow2, Step, Below, Inside;
    Steps();
    assert Below(j, 0, 10, u) == 0 by { BelowNone(j, 10, u); }
    BelowVisit(j, 0, 10, u);
    StepTo(0, 10, 0, 643);
    BelowVisit(j, 1, 10, u);
    StepTo(1, 10, 643, 262);
    BelowVisit(j, 2, 10, u);
  }

  lemma Below11(j: nat, u: int)
    ensures var p := Visit(j, 11);
      Below(j, 8, 11, u) == Inside(p, 0, 2048, u) + Inside(p, 1283, 2048, u) + Inside(p, 518, 2048, u) + Inside(p, 1801, 2048, u)
         + Inside(p, 1036, 2048, u) + Inside(p, 271, 2048, u) + Inside(p, 1554, 2048, u) + Inside(p, 789, 2048, u)
  {
    hide Visit, Pow2, Step, Below, Inside;
    Steps();
    assert Below(j, 0, 11, u) == 0 by { BelowNone(j, 11, u); }
    BelowVisit(j, 0, 11, u);
    StepTo(0, 11, 0, 1283);
    BelowVisit(j, 1, 11, u);
    StepTo(1, 11, 1283, 518);
    BelowVisit(j, 2, 11, u);
    StepTo(2, 11, 518, 1801);
    BelowVisit(j, 3, 11, u);
    StepTo(3, 11, 1801, 1036);
    BelowVisit(j, 4, 11, u);
    StepTo(4, 11, 1036, 271);
    BelowVisit(j, 5, 11, u);
    StepTo(5, 11, 271, 1554);
    BelowVisit(j, 6, 11, u);
    StepTo(6, 11, 1554, 789);
    BelowVisit(j, 7, 11, u);
  }

  lemma Below12a(j: nat, u: int)
    ensures var p := Visit(j, 12);
      Below(j, 8, 12, u) == Inside(p, 0, 4096, u) + Inside(p, 2563, 4096, u) + Inside(p, 1030, 4096, u) + Inside(p, 3593, 4096, u)
         + Inside(p, 2060, 4096, u) + Inside(p, 527, 4096, u) + Inside(p, 3090, 4096, u) + Inside(p, 1557, 4096, u)
    ensures Visit(8, 12) == 24
  {
    hide Visit, Pow2, Step, Below, Inside;
    Steps();
    assert Below(j, 0, 12, u) == 0 by { BelowNone(j, 12, u); }
    BelowVisit(j, 0, 12, u);
    StepTo(0, 12, 0, 2563);
    BelowVisit(j, 1, 12, u);
    StepTo(1, 12, 2563, 1030);
    BelowVisit(j, 2, 12, u);
    StepTo(2, 12, 1030, 3593);
    BelowVisit(j, 3, 12, u);
    StepTo(3, 12, 3593, 2060);
    BelowVisit(j, 4, 12, u);
    StepTo(4, 12, 2060, 527);
    BelowVisit(j, 5, 12, u);
    StepTo(5, 12, 527, 3090);
    BelowVisit(j, 6, 12, u);
    StepTo(6, 12, 3090, 1557);
    BelowVisit(j, 7, 12, u);
    StepTo(7, 12, 1557, 24);
  }

  lemma Below12b(j: nat, u: int)
    requires Visit(8, 12) == 24
    ensures var p := Visit(j, 12);
      Below(j, 16, 12, u) == Below(j, 8, 12, u) + Inside(p, 24, 4096, u) + Inside(p, 2587, 4096, u) + Inside(p, 1054, 4096, u) + Inside(p, 3617, 4096, u)
         + Inside(p, 2084, 4096, u) + Inside(p, 551, 4096, u) + Inside(p, 3114, 4096, u) + Inside(p, 1581, 4096, u)
  {
    hide Visit, Pow2, Step, Below, Inside;
    Steps();
    BelowVisit(j, 8, 12, u);
    StepTo(8, 12, 24, 2587);
    BelowVisit(j, 9, 12, u);
    StepTo(9, 12, 2587, 1054);
    BelowVisit(j, 10, 12, u);
    StepTo(10, 12, 1054, 3617);
    BelowVisit(j, 11, 12, u);
    StepTo(11, 12, 3617, 2084);
    BelowVisit(j, 12, 12, u);
    StepTo(12, 12, 2084, 551);
    BelowVisit(j, 13, 12, u);
    StepTo(13, 12, 551, 3114);
    BelowVisit(j, 14, 12, u);
    StepTo(14, 12, 3114, 1581);
    BelowVisit(j, 15, 12, u);
  }

  lemma Sixteen(p: nat, m: nat)
    requires p < 4096
    ensures Inside(p, 0, 4096, 256 * m) + Inside(p, 2563, 4096, 256 * m) + Inside(p, 1030, 4096, 256 * m)
         + Inside(p, 3593, 4096, 256 * m) + Inside(p, 2060, 4096, 256 * m) + Inside(p, 527, 4096, 256 * m)
         + Inside(p, 3090, 4096, 256 * m) + Inside(p, 1557, 4096, 256 * m) + Inside(p, 24, 4096, 256 * m)
         + Inside(p, 2587, 4096, 256 * m) + Inside(p, 1054, 4096, 256 * m) + Inside(p, 3617, 4096, 256 * m)
         + Inside(p, 2084, 4096, 256 * m) + Inside(p, 551, 4096, 256 * m) + Inside(p, 3114, 4096, 256 * m)
         + Inside(p, 1581, 4096, 256 * m) <= m + 1
  {}

  /** Of three visits in a row of 1024 cells at most `m` are in the first `m` blocks, */
  lemma Spread10(j: nat, m: nat)
    ensures Below(j, 3, 10, 256 * m) <= m
  {
    hide Visit, Below;
    Steps();
    Below10(j, 256 * m);
  }

  /** ... of eight of 2048 at most one more, */
  lemma Spread11(j: nat, m: nat)
    ensures Below(j, 8, 11, 256 * m) <= m + 1
  {
    hide Visit, Below;
    Steps();
    Below11(j, 256 * m);
  }

  /** ... and so of sixteen of 4096. */
  lemma Spread12(j: nat, m: nat)
    ensures Below(j, 16, 12, 256 * m) <= m + 1
  {
    hide Visit, Below, Inside;
    Steps();
    Below12a(j, 256 * m);
    Below12b(j, 256 * m);
    Sixteen(Visit(j, 12), m);
  }

  // ----- eight bits lead to a higher rank -----

  /** A share between one cell in 512 and one in 256: eight or nine bits. */
  ghost predicate Middling(norm: seq<int>, tableLog: nat, s: nat)
    requires s < |norm|
  {
    norm[s] > 0 && Shl(norm[s], 8) < Pow2(tableLog) < Shl(norm[s], 9)
  }

  /** Wherever `s` is coded with eight bits, its next cell has a higher rank. */
  ghost predicate Climbs(norm: seq<int>, tableLog: nat, s: nat)
    requires ValidNorm(norm, tableLog) && s < |norm|
  {
    forall u :: 0 <= u < Pow2(tableLog) && SpreadOf(norm, tableLog)[u] == s && (Pow2(tableLog) + u) / 256 < 2 * norm[s] ==>
      Rank(SpreadOf(norm, tableLog), u, s) < (Pow2(tableLog) + u) / 256 - norm[s]
  }

  /** `m` blocks hold at most so many of the cells of `s`. */
  lemma RankInBlocks(norm: seq<int>, tableLog: nat, s: nat, u: nat)
    requires ValidNorm(norm, tableLog) && LowCount(norm, |norm|) == 0 && s < |norm| && u < Pow2(tableLog)
    requires SpreadOf(norm, tableLog)[u] == s && Pow2(tableLog) % 256 == 0
    ensures norm[s] >= 0 && Rank(SpreadOf(norm, tableLog), u, s) < Below(Cum(norm, s), norm[s], tableLog, 256 * (u / 256 + 1))
  {
    hide Pow2, Cum, LowCount, SpreadOf, Below, Rank;
    var end := 256 * (u / 256 + 1);
    assert end <= Pow2(tableLog);
    RankBelow(norm, tableLog, s, end);
    RankMono(SpreadOf(norm, tableLog), u, end, s);
  }

  /** Three cells of 1024 always climb, and so does every share that leaves at least two
      more to one cell in 256. */
  lemma WhichClimb(norm: seq<int>, tableLog: nat, s: nat)
    requires ValidNorm(norm, tableLog) && LowCount(norm, |norm|) == 0 && s < |norm| && Middling(norm, tableLog, s)
    requires tableLog == 10 || Shl(norm[s] + 1, 8) < Pow2(tableLog)
    ensures Climbs(norm, tableLog, s)
  {
    hide Pow2, Cum, LowCount, SpreadOf, Below, Rank, Shl;
    Steps();
    Pow2Values();
    ShlIsMul(norm[s], 8);
    ShlIsMul(norm[s], 9);
    ShlIsMul(norm[s] + 1, 8);
    WideLog(norm, tableLog, s);
    forall u | 0 <= u < Pow2(tableLog) && SpreadOf(norm, tableLog)[u] == s && (Pow2(tableLog) + u) / 256 < 2 * norm[s]
      ensures Rank(SpreadOf(norm, tableLog), u, s) < (Pow2(tableLog) + u) / 256 - norm[s]
    {
      RankInBlocks(norm, tableLog, s, u);
      var j, m := Cum(norm, s), u / 256 + 1;
      if tableLog == 10 {
        Spread10(j, m);
      } else if tableLog == 11 {
        BelowMore(j, norm[s], 8, 11, 256 * m);
        Spread11(j, m);
      } else {
        BelowMore(j, norm[s], 16, 12, 256 * m);
        Spread12(j, m);
      }
    }
  }

  lemma WideLog(norm: seq<int>, tableLog: nat, s: nat)
    requires ValidNorm(norm, tableLog) && s < |norm| && Middling(norm, tableLog, s)
    ensures 10 <= tableLog <= 12
  {
    hide Pow2, Shl;
    Pow2Values();
    ShlIsMul(norm[s], 8);
    ShlIsMul(norm[s], 9);
    if tableLog < 9 { Pow2Mono(tableLog, 8); }
  }

  // ----- a long run of one symbol -----

  /** `x` is a state of `s`. */
  ghost predicate StateFor(norm: seq<int>, tableLog: nat, s: nat, x: nat)
    requires ValidNorm(norm, tableLog)
  {
    State(x, tableLog) && SpreadOf(norm, tableLog)[x - Pow2(tableLog)] == s
  }

  ghost function RankOf(norm: seq<int>, tableLog: nat, s: nat, x: nat): nat
    requires ValidNorm(norm, tableLog) && State(x, tableLog)
  {
    Rank(SpreadOf(norm, tableLog), x - Pow2(tableLog), s)
  }

  lemma StateAt(ct: CTable, norm: seq<int>, tableLog: nat, s: nat, r: nat)
    requires ValidNorm(norm, tableLog) && IsCTable(ct, norm, tableLog) && s < |norm| && r < Weight(norm[s])
    ensures Cum(norm, s) + r < |ct.stateTable|
    ensures var x := ct.stateTable[Cum(norm, s) + r]; StateFor(norm, tableLog, s, x) && RankOf(norm, tableLog, s, x) == r
  {
    hide Low, Shr, Shl, Pow2, Highbit, SpreadOf, MaxBits, Cum, IsSpread, GoodTransform;
    var cells := SpreadOf(norm, tableLog);
    SpreadCounts(cells, norm, tableLog);
    var u := PositionOfRank(cells, |cells|, s, r);
    assert Slot(norm, cells, u) == Cum(norm, s) + r;
  }

  lemma FirstFor(ct: CTable, norm: seq<int>, tableLog: nat, s: nat)
    requires ValidNorm(norm, tableLog) && IsCTable(ct, norm, tableLog) && s < |norm| == |ct.symbolTT| && norm[s] > 0
    ensures var x := First(ct, norm, tableLog, s); StateFor(norm, tableLog, s, x) && RankOf(norm, tableLog, s, x) == 0
  {
    hide IsCTable, Pow2, FirstIndex, SpreadOf, Cum, ValidNorm;
    FirstInRange(ct, norm, tableLog, s);
    FirstTarget(ct, norm, tableLog, s);
    StateAt(ct, norm, tableLog, s, 0);
  }

  lemma RankLimit(norm: seq<int>, tableLog: nat, s: nat, x: nat)
    requires ValidNorm(norm, tableLog) && s < |norm| && StateFor(norm, tableLog, s, x)
    ensures RankOf(norm, tableLog, s, x) < Weight(norm[s])
  {
    hide Pow2, SpreadOf, Cum, IsSpread;
    var cells := SpreadOf(norm, tableLog);
    SpreadCounts(cells, norm, tableLog);
    RankMono(cells, x - Pow2(tableLog), |cells|, s);
  }

  /** One step: nine bits, or eight and a higher rank. */
  lemma Climb(ct: CTable, norm: seq<int>, tableLog: nat, s: nat, x: nat)
    requires ValidNorm(norm, tableLog) && IsCTable(ct, norm, tableLog) && s < |norm| == |ct.symbolTT|
    requires Middling(norm, tableLog, s) && Climbs(norm, tableLog, s) && StateFor(norm, tableLog, s, x)
    ensures var y := Next(ct, norm, tableLog, s, x);
      && StateFor(norm, tableLog, s, y)
      && (NbBitsOut(ct, s, x) == 9
          || (NbBitsOut(ct, s, x) == 8 && RankOf(norm, tableLog, s, y) > RankOf(norm, tableLog, s, x)))
  {
    hide Pow2, Shl, Shr, IsCTable, ValidNorm, NbBitsOut, StateIndex, SpreadOf, Cum;
    Pow2Values();
    var nb := NbBitsOut(ct, s, x);
    StepInRange(ct, norm, tableLog, s, x);
    StepTarget(ct, norm, tableLog, s, x);
    StepCost(ct, norm, tableLog, s, x, 8);
    StepCost(ct, norm, tableLog, s, x, 9);
    StateAt(ct, norm, tableLog, s, Shr(x, nb) - norm[s]);
    ShrIsDiv(x, 8);
  }

  /** The bits above eight a symbol, while only `s` is coded: a ninth at least once in as
      many steps of a chain as `s` has cells. */
  lemma {:induction false} NinthBits(ct: CTable, norm: seq<int>, tableLog: nat, src: seq<Byte>, s: Byte, i: nat)
    requires Codable(ct, norm, tableLog, src) && i + 2 <= |src| && forall j :: 0 <= j < |src| ==> src[j] == s
    requires s < |norm| && Middling(norm, tableLog, s) && Climbs(norm, tableLog, s)
    ensures var c, k := EncodeFrom(ct, norm, tableLog, src, i), |src| - 2 - i;
      && StateFor(norm, tableLog, s, c.cur) && StateFor(norm, tableLog, s, c.other) && c.bits.len >= 8 * k
      && norm[s] * (c.bits.len - 8 * k) + RankOf(norm, tableLog, s, c.cur) + RankOf(norm, tableLog, s, c.other) >= k
    decreases |src| - i
  {
    hide Pow2, Shl, IsCTable, ValidNorm, NbBitsOut, First, Next, EncodeFrom, RankOf, StateFor, Climbs;
    if i + 2 == |src| {
      EncodeLast(ct, norm, tableLog, src, i);
      FirstFor(ct, norm, tableLog, s);
    } else {
      NinthBits(ct, norm, tableLog, src, s, i + 1);
      EncodeStep(ct, norm, tableLog, src, i);
      var c := EncodeFrom(ct, norm, tableLog, src, i + 1);
      StateIs(norm, tableLog, s, c.cur);
      StateIs(norm, tableLog, s, c.other);
      Climb(ct, norm, tableLog, s, c.other);
      RankLimit(norm, tableLog, s, c.other);
      var extra := c.bits.len - 8 * (|src| - 3 - i);
      assert norm[s] * (extra + 1) == norm[s] * extra + norm[s];
    }
  }

  lemma StateIs(norm: seq<int>, tableLog: nat, s: nat, x: nat)
    requires ValidNorm(norm, tableLog) && StateFor(norm, tableLog, s, x)
    ensures State(x, tableLog)
  {}

  function Repeated(s: Byte, n: nat): (r: seq<Byte>)
    ensures |r| == n && forall i :: 0 <= i < n ==> r[i] == s
  {
    seq(n, _ => s)
  }

  /** A source long enough for the ninth bits to exceed the slack of the bound. */
  const LONG := 16384

  lemma LongRunOverflows(ct: CTable, norm: seq<int>, tableLog: nat, s: Byte)
    requires ValidNorm(norm, tableLog) && IsCTable(ct, norm, tableLog) && s < |norm| == |ct.symbolTT|
    requires Middling(norm, tableLog, s) && Climbs(norm, tableLog, s)
    ensures !FitsUnchecked(ct, norm, tableLog, Repeated(s, LONG), BlockBound(LONG))
  {
    hide Pow2, Shl, IsCTable, ValidNorm, EncodeFrom, RankOf, StateFor, Climbs;
    var src := Repeated(s, LONG);
    NinthBits(ct, norm, tableLog, src, s, 0);
    var c := EncodeFrom(ct, norm, tableLog, src, 0);
    StateIs(norm, tableLog, s, c.cur);
    StateIs(norm, tableLog, s, c.other);
    RankLimit(norm, tableLog, s, c.cur);
    RankLimit(norm, tableLog, s, c.other);
    FewCells(norm, tableLog, s);
    var extra: nat := c.bits.len - 8 * (LONG - 2);
    Ninths(norm[s], extra, RankOf(norm, tableLog, s, c.cur), RankOf(norm, tableLog, s, c.other));
  }

  lemma Ninths(w: nat, extra: nat, a: nat, b: nat)
    requires a < w < 16 && b < w && w * extra + a + b >= LONG - 2
    ensures extra >= 1091
  {
    if extra <= 1090 { MulMono(extra, 1090, w); }
  }

  lemma FewCells(norm: seq<int>, tableLog: nat, s: nat)
    requires ValidNorm(norm, tableLog) && s < |norm| && Middling(norm, tableLog, s)
    ensures 0 < norm[s] < 16
  {
    hide Pow2, Shl;
    ShlIsMul(norm[s], 8);
    Pow2Values();
    Pow2Mono(tableLog, 12);
  }

  /** A symbol that does not climb everywhere stays below the cell where it does not. */
  lemma Stay(ct: CTable, norm: seq<int>, tableLog: nat, s: nat, top: nat, x: nat)
    requires ValidNorm(norm, tableLog) && IsCTable(ct, norm, tableLog) && s < |norm| == |ct.symbolTT| && Middling(norm, tableLog, s)
    requires StateFor(norm, tableLog, s, top) && top / 256 < 2 * norm[s]
    requires RankOf(norm, tableLog, s, top) >= top / 256 - norm[s]
    requires StateFor(norm, tableLog, s, x) && RankOf(norm, tableLog, s, x) <= RankOf(norm, tableLog, s, top)
    ensures var y := Next(ct, norm, tableLog, s, x);
      && StateFor(norm, tableLog, s, y) && RankOf(norm, tableLog, s, y) <= RankOf(norm, tableLog, s, top)
      && NbBitsOut(ct, s, x) == 8
  {
    hide Pow2, Shl, Shr, IsCTable, ValidNorm, NbBitsOut, StateIndex, SpreadOf, Cum;
    Pow2Values();
    ByRank(norm, tableLog, s, x, top);
    var nb := NbBitsOut(ct, s, x);
    StepInRange(ct, norm, tableLog, s, x);
    StepTarget(ct, norm, tableLog, s, x);
    StepCost(ct, norm, tableLog, s, x, 8);
    StepCost(ct, norm, tableLog, s, x, 9);
    StateAt(ct, norm, tableLog, s, Shr(x, nb) - norm[s]);
    ShrIsDiv(x, 8);
    ShrIsDiv(x, 9);
  }

  lemma ByRank(norm: seq<int>, tableLog: nat, s: nat, x: nat, y: nat)
    requires ValidNorm(norm, tableLog) && StateFor(norm, tableLog, s, x) && StateFor(norm, tableLog, s, y)
    ensures RankOf(norm, tableLog, s, x) <= RankOf(norm, tableLog, s, y) ==> x <= y
  {
    hide Pow2, SpreadOf, Cum, Rank;
    if x > y { RankMono(SpreadOf(norm, tableLog), y - Pow2(tableLog), x - Pow2(tableLog), s); }
  }

  lemma {:induction false} EightBits(ct: CTable, norm: seq<int>, tableLog: nat, src: seq<Byte>, s: Byte, i: nat, top: nat)
    requires Codable(ct, norm, tableLog, src) && i + 2 <= |src| && forall j :: 0 <= j < |src| ==> src[j] == s
    requires s < |norm| && Middling(norm, tableLog, s)
    requires StateFor(norm, tableLog, s, top) && top / 256 < 2 * norm[s]
    requires RankOf(norm, tableLog, s, top) >= top / 256 - norm[s]
    ensures var c := EncodeFrom(ct, norm, tableLog, src, i);
      && StateFor(norm, tableLog, s, c.cur) && StateFor(norm, tableLog, s, c.other) && c.bits.len == 8 * (|src| - 2 - i)
      && RankOf(norm, tableLog, s, c.cur) <= RankOf(norm, tableLog, s, top)
      && RankOf(norm, tableLog, s, c.other) <= RankOf(norm, tableLog, s, top)
    decreases |src| - i
  {
    hide Pow2, Shl, IsCTable, ValidNorm, NbBitsOut, First, Next, EncodeFrom, RankOf, StateFor;
    StateIs(norm, tableLog, s, top);
    if i + 2 == |src| {
      EncodeLast(ct, norm, tableLog, src, i);
      FirstFor(ct, norm, tableLog, s);
    } else {
      EightBits(ct, norm, tableLog, src, s, i + 1, top);
      EncodeStep(ct, norm, tableLog, src, i);
      var c := EncodeFrom(ct, norm, tableLog, src, i + 1);
      StateIs(norm, tableLog, s, c.cur);
      Stay(ct, norm, tableLog, s, top, c.other);
    }
  }

  /** So a run of such a symbol alone exceeds the bound, at some length, exactly when its
      cells climb. */
  lemma RunsOverflowExactly(ct: CTable, norm: seq<int>, tableLog: nat, s: Byte)
    requires ValidNorm(norm, tableLog) && IsCTable(ct, norm, tableLog) && s < |norm| == |ct.symbolTT| && Middling(norm, tableLog, s)
    ensures Climbs(norm, tableLog, s) <==> exists n: nat, size: nat :: !FitsUnchecked(ct, norm, tableLog, Repeated(s, n), size)
  {
    hide Pow2, Shl, IsCTable, ValidNorm, EncodeFrom, RankOf, StateFor;
    if Climbs(norm, tableLog, s) {
      LongRunOverflows(ct, norm, tableLog, s);
    } else {
      var top := NoClimb(norm, tableLog, s);
      forall n: nat, size: nat ensures FitsUnchecked(ct, norm, tableLog, Repeated(s, n), size) {
        var src := Repeated(s, n);
        if Codable(ct, norm, tableLog, src) && n >= 2 { EightBits(ct, norm, tableLog, src, s, 0, top); }
      }
    }
  }

  lemma NoClimb(norm: seq<int>, tableLog: nat, s: nat) returns (top: nat)
    requires ValidNorm(norm, tableLog) && s < |norm| && norm[s] > 0 && !Climbs(norm, tableLog, s)
    ensures StateFor(norm, tableLog, s, top) && top / 256 < 2 * norm[s]
    ensures RankOf(norm, tableLog, s, top) >= top / 256 - norm[s]
  {
    hide Pow2, SpreadOf;
    var u: nat :| u < Pow2(tableLog) && SpreadOf(norm, tableLog)[u] == s && (Pow2(tableLog) + u) / 256 < 2 * norm[s]
                  && Rank(SpreadOf(norm, tableLog), u, s) >= (Pow2(tableLog) + u) / 256 - norm[s];
    top := Pow2(tableLog) + u;
  }

  // ----- when the bound is one -----

  /** The table keeps to the bound, whatever the source. */
  ghost predicate BoundHolds(ct: CTable, norm: seq<int>, tableLog: nat)
  {
    forall src: seq<Byte>, size: nat :: FitsUnchecked(ct, norm, tableLog, src, size)
  }

  /** `s` is in use with less than one cell in 256. */
  ghost predicate Scarce(norm: seq<int>, tableLog: nat, s: nat)
    requires s < |norm|
  {
    norm[s] != 0 && Shl(Weight(norm[s]), 8) < Pow2(tableLog)
  }

  lemma AllFit(ct: CTable, norm: seq<int>, tableLog: nat)
    requires forall s :: 0 <= s < |norm| ==> !Scarce(norm, tableLog, s)
    ensures BoundHolds(ct, norm, tableLog)
  {
    hide Pow2, Shl, IsCTable, ValidNorm, EncodeFrom;
    forall src: seq<Byte>, size: nat ensures FitsUnchecked(ct, norm, tableLog, src, size) {
      if Codable(ct, norm, tableLog, src) {
        forall i | 0 <= i < |src| ensures Shl(Weight(norm[src[i]]), 8) >= Pow2(tableLog) {
          assert !Scarce(norm, tableLog, src[i]);
        }
        CommonSymbolsFit(ct, norm, tableLog, src, size);
      }
    }
  }

  /** At most one cell in 512 breaks the bound. */
  lemma RareBreaks(ct: CTable, norm: seq<int>, tableLog: nat, s: nat)
    requires ValidNorm(norm, tableLog) && IsCTable(ct, norm, tableLog) && |ct.symbolTT| == |norm| && s < |norm|
    requires norm[s] != 0 && Shl(Weight(norm[s]), 9) <= Pow2(tableLog)
    ensures !BoundHolds(ct, norm, tableLog)
  {
    hide Pow2, Shl, IsCTable, EncodeFrom, FitsUnchecked, Cum;
    var src := Repeated(s, 64);
    RareSymbolsOverflow(ct, norm, tableLog, src);
  }

  /** Below one cell in 256 a symbol breaks the bound, unless it is the next share below
      it, in a table of 2048 or 4096 cells, and some cell of it leads to no higher rank. */
  lemma ScarceBreaks(ct: CTable, norm: seq<int>, tableLog: nat, s: nat)
    requires ValidNorm(norm, tableLog) && IsCTable(ct, norm, tableLog) && |ct.symbolTT| == |norm| && s < |norm|
    requires Scarce(norm, tableLog, s)
    requires tableLog <= 10 || Shl(Weight(norm[s]) + 1, 8) < Pow2(tableLog) || Climbs(norm, tableLog, s)
    ensures !BoundHolds(ct, norm, tableLog)
  {
    hide Pow2, Shl, IsCTable, EncodeFrom, FitsUnchecked, Cum, Climbs;
    if t: nat :| t < |norm| && norm[t] != 0 && Shl(Weight(norm[t]), 9) <= Pow2(tableLog) {
      RareBreaks(ct, norm, tableLog, t);
    } else {
      NoneLow(norm, tableLog, s);
      if !Climbs(norm, tableLog, s) {
        WideLog(norm, tableLog, s);
        WhichClimb(norm, tableLog, s);
      }
      LongRunOverflows(ct, norm, tableLog, s);
    }
  }

  /** A symbol of low probability would have one cell in 512 or less. */
  lemma NoneLow(norm: seq<int>, tableLog: nat, s: nat)
    requires ValidNorm(norm, tableLog) && s < |norm| && Scarce(norm, tableLog, s)
    requires forall t :: 0 <= t < |norm| && norm[t] != 0 ==> Shl(Weight(norm[t]), 9) > Pow2(tableLog)
    ensures LowCount(norm, |norm|) == 0 && Middling(norm, tableLog, s)
  {
    hide Pow2, Shl, Cum;
    ShlIsMul(Weight(norm[s]), 8);
    Pow2Values();
    if tableLog <= 8 { Pow2Mono(tableLog, 8); }
    Pow2Mono(9, tableLog);
    ShlIsMul(1, 9);
    forall t | 0 <= t < |norm| ensures norm[t] >= 0 {
      assert norm[t] != 0 ==> Shl(Weight(norm[t]), 9) > Pow2(tableLog);
    }
    NoneLowCount(norm, |norm|);
  }

  lemma {:induction false} NoneLowCount(norm: seq<int>, k: nat)
    requires k <= |norm| && forall t :: 0 <= t < k ==> norm[t] >= 0
    ensures LowCount(norm, k) == 0
  {
    if k > 0 { NoneLowCount(norm, k - 1); }
  }

  /** `FSE_BLOCKBOUND` is a bound for a table in which every symbol in use has at least one
      cell in 256.  Up to table log 10 for no other table; above it for none in which a
      symbol has two cells less than that, or one less and they climb. */
  lemma BlockBoundHolds(ct: CTable, norm: seq<int>, tableLog: nat)
    requires ValidNorm(norm, tableLog) && IsCTable(ct, norm, tableLog) && |ct.symbolTT| == |norm|
    ensures (forall s :: 0 <= s < |norm| ==> !Scarce(norm, tableLog, s)) ==> BoundHolds(ct, norm, tableLog)
    ensures tableLog <= 10 ==> (BoundHolds(ct, norm, tableLog) <==> forall s :: 0 <= s < |norm| ==> !Scarce(norm, tableLog, s))
    ensures (exists s :: 0 <= s < |norm| && Scarce(norm, tableLog, s)
                      && (Shl(Weight(norm[s]) + 1, 8) < Pow2(tableLog) || Climbs(norm, tableLog, s)))
            ==> !BoundHolds(ct, norm, tableLog)
  {
    hide Pow2, Shl, IsCTable, ValidNorm, EncodeFrom, FitsUnchecked, BoundHolds, Scarce, Climbs;
    if forall s :: 0 <= s < |norm| ==> !Scarce(norm, tableLog, s) { AllFit(ct, norm, tableLog); }
    if s: nat :| s < |norm| && Scarce(norm, tableLog, s)
                 && (tableLog <= 10 || Shl(Weight(norm[s]) + 1, 8) < Pow2(tableLog) || Climbs(norm, tableLog, s)) {
      ScarceBreaks(ct, norm, tableLog, s);
    }
  }
}
