/** The FSE encoding and decoding tables, and why one undoes the other. */
module FseTable {
  import opened Bits
  import opened Counting
  import opened FseSpread

  /** `FSE_symbolCompressionTransform`. */
  datatype Transform = Transform(deltaFindState: int, deltaNbBits: nat)

  datatype CTable = CTable(tableLog: nat, stateTable: seq<nat>, symbolTT: seq<Transform>)

  /** `FSE_decode_t`. */
  datatype Entry = Entry(newState: nat, symbol: nat, nbBits: nat)

  datatype DTable = DTable(tableLog: nat, fastMode: bool, entries: seq<Entry>)

  // ----- what the tables are -----

  /** The slot of the state table that cell `u` gets: the cells of each symbol are
      together, in the order of the table. */
  function Slot(norm: seq<int>, cells: seq<int>, u: nat): nat
    requires u < |cells| && 0 <= cells[u] < |norm|
  {
    Cum(norm, cells[u]) + Rank(cells, u, cells[u])
  }

  ghost predicate StatesFollow(stateTable: seq<nat>, norm: seq<int>, cells: seq<int>)
    requires forall u :: 0 <= u < |cells| ==> 0 <= cells[u] < |norm|
  {
    forall u {:trigger Slot(norm, cells, u)} :: 0 <= u < |cells| ==>
      Slot(norm, cells, u) < |stateTable| && stateTable[Slot(norm, cells, u)] == |cells| + u
  }

  /** The most bits that coding a symbol of weight `n` can take. */
  function MaxBits(n: nat, tableLog: nat): nat
    requires 0 < n <= Pow2(tableLog)
  {
    if n == 1 then tableLog
    else
      HighbitBelow(n, tableLog);
      tableLog - Highbit(n - 1)
  }

  lemma HighbitBelow(n: nat, tableLog: nat)
    requires 1 < n <= Pow2(tableLog)
    ensures Highbit(n - 1) < tableLog
  {
    HighbitBounds(n - 1);
    if Highbit(n - 1) >= tableLog { Pow2Mono(tableLog, Highbit(n - 1)); }
  }

  ghost predicate TransformOf(t: Transform, norm: seq<int>, tableLog: nat, s: nat)
    requires s < |norm| && 0 < Weight(norm[s]) <= Pow2(tableLog)
  {
    var n := Weight(norm[s]);
    && t.deltaFindState == Cum(norm, s) - n
    && t.deltaNbBits == 0x1_0000 * MaxBits(n, tableLog) - Shl(n, MaxBits(n, tableLog))
  }

  lemma WeightBound(norm: seq<int>, tableLog: nat, s: nat)
    requires ValidNorm(norm, tableLog) && s < |norm|
    ensures Weight(norm[s]) <= Pow2(tableLog)
    ensures Cum(norm, s) + Weight(norm[s]) <= Pow2(tableLog)
  {
    CumMono(norm, s + 1, |norm|);
  }

  ghost predicate IsCTable(ct: CTable, norm: seq<int>, tableLog: nat)
    requires ValidNorm(norm, tableLog)
  {
    var cells := SpreadOf(norm, tableLog);
    SpreadCounts(cells, norm, tableLog);
    && ct.tableLog == tableLog
    && |ct.stateTable| == Pow2(tableLog) && |ct.symbolTT| == |norm|
    && StatesFollow(ct.stateTable, norm, cells)
    && (forall s {:trigger GoodTransform(ct, norm, tableLog, s)} :: 0 <= s < |norm| && norm[s] != 0 ==>
          GoodTransform(ct, norm, tableLog, s))
  }

  ghost predicate GoodTransform(ct: CTable, norm: seq<int>, tableLog: nat, s: nat)
    requires ValidNorm(norm, tableLog) && s < |norm| == |ct.symbolTT| && norm[s] != 0
  {
    WeightBound(norm, tableLog, s);
    TransformOf(ct.symbolTT[s], norm, tableLog, s)
  }

  /** The decoder's `nextState` for cell `u`. */
  function NextState(norm: seq<int>, cells: seq<int>, u: nat): nat
    requires u < |cells| && 0 <= cells[u] < |norm|
  {
    Weight(norm[cells[u]]) + Rank(cells, u, cells[u])
  }

  ghost predicate EntryOf(e: Entry, norm: seq<int>, cells: seq<int>, tableLog: nat, u: nat)
    requires u < |cells| && 0 <= cells[u] < |norm|
  {
    EntryFor(e, tableLog, cells[u], NextState(norm, cells, u))
  }

  ghost predicate IsDTable(dt: DTable, norm: seq<int>, tableLog: nat)
    requires ValidNorm(norm, tableLog)
  {
    var cells := SpreadOf(norm, tableLog);
    SpreadCounts(cells, norm, tableLog);
    && dt.tableLog == tableLog
    && |dt.entries| == Pow2(tableLog)
    && (forall u :: 0 <= u < Pow2(tableLog) ==> EntryOf(dt.entries[u], norm, cells, tableLog, u))
    && (dt.fastMode <==> forall s :: 0 <= s < |norm| ==> norm[s] < Pow2(tableLog - 1))
  }

  // ----- one step -----

  /** `FSE_encodeSymbol`: the number of bits the state sheds. */
  function NbBitsOut(ct: CTable, s: nat, x: nat): nat
    requires s < |ct.symbolTT|
  {
    (x + ct.symbolTT[s].deltaNbBits) / 0x1_0000
  }

  /** ... and where the next state is found. */
  function StateIndex(ct: CTable, s: nat, x: nat): int
    requires s < |ct.symbolTT|
  {
    Shr(x, NbBitsOut(ct, s, x)) + ct.symbolTT[s].deltaFindState
  }

  ghost predicate State(x: nat, tableLog: nat) { Pow2(tableLog) <= x < 2 * Pow2(tableLog) }

  /** The `deltaNbBits` addition picks the one shift that brings a state into
      `[n, 2n)`. */
  lemma BitsOut(n: nat, tableLog: nat, x: nat, delta: nat, nb: nat)
    requires 1 <= tableLog <= MAX_TABLELOG && 0 < n <= Pow2(tableLog) && State(x, tableLog)
    requires delta == 0x1_0000 * MaxBits(n, tableLog) - Shl(n, MaxBits(n, tableLog))
    requires nb == (x + delta) / 0x1_0000
    ensures n <= Shr(x, nb) < 2 * n && nb <= tableLog
  {
    hide Low, Shr, Shl, Pow2, Highbit;
    var mb := MaxBits(n, tableLog);
    var least := Shl(n, mb);
    MaxBitsBounds(n, tableLog);
    if x >= least {
      assert nb == mb;
      ShrVersusShl(x, n, mb);
      ShrVersusShl(x, 2 * n, mb);
    } else {
      assert nb == mb - 1;
      ShrVersusShl(x, n, mb - 1);
      ShrVersusShl(x, 2 * n, mb - 1);
    }
  }

  lemma MaxBitsBounds(n: nat, tableLog: nat)
    requires 1 <= tableLog <= MAX_TABLELOG && 0 < n <= Pow2(tableLog)
    ensures var mb := MaxBits(n, tableLog);
            && 1 <= mb <= tableLog
            && Shl(n, mb) <= 2 * Pow2(tableLog) <= Shl(2 * n, mb)
            && Shl(2 * n, mb - 1) == Shl(n, mb) && Shl(n, mb - 1) <= Pow2(tableLog)
            && 2 * Pow2(tableLog) <= 0x2000
  {
    hide Low, Shr, Shl, Pow2, Highbit;
    if n > 1 { HighbitBelow(n, tableLog); }
    var mb := MaxBits(n, tableLog);
    Pow2Mono(tableLog, MAX_TABLELOG);
    Pow2Values();
    ShlNext(n, mb - 1);
    ShlAdd(n, n, mb - 1);
    var h := if n == 1 then 0 else Highbit(n - 1);
    if n > 1 { HighbitBounds(n - 1); }
    assert mb == tableLog - h && n <= Pow2(h + 1) <= 2 * n by { Pow2Next(h); }
    PowerShift(h, mb, tableLog);
    ShlMono(n, Pow2(h + 1), mb - 1);
    ShlMono(Pow2(h + 1), 2 * n, mb);
  }

  lemma PowerShift(h: nat, mb: nat, tableLog: nat)
    requires mb > 0 && tableLog == h + mb
    ensures Shl(Pow2(h + 1), mb) == 2 * Pow2(tableLog)
    ensures Shl(Pow2(h + 1), mb - 1) == Pow2(tableLog)
  {
    hide Shl, Pow2;
    ShlOne(h + 1);
    ShlShl(1, h + 1, mb);
    ShlShl(1, h + 1, mb - 1);
    ShlOne(tableLog);
    ShlOne(tableLog + 1);
    Pow2Next(tableLog);
  }

  /** The `r`-th state of symbol `s` in the encoder's table is the cell whose
      decoding entry has `nextState` `n + r`. */
  lemma TablesAgree(ct: CTable, dt: DTable, norm: seq<int>, tableLog: nat, s: nat, r: nat)
    requires ValidNorm(norm, tableLog) && IsCTable(ct, norm, tableLog) && IsDTable(dt, norm, tableLog)
    requires s < |norm| && r < Weight(norm[s])
    ensures |dt.entries| == Pow2(tableLog)
    ensures Cum(norm, s) + r < |ct.stateTable|
    ensures State(ct.stateTable[Cum(norm, s) + r], tableLog)
    ensures var e := dt.entries[ct.stateTable[Cum(norm, s) + r] - Pow2(tableLog)];
            EntryFor(e, tableLog, s, Weight(norm[s]) + r)
  {
    hide Low, Shr, Shl, Pow2, Highbit, SpreadOf, MaxBits, Cum, IsSpread, GoodTransform;
    var cells := SpreadOf(norm, tableLog);
    SpreadCounts(cells, norm, tableLog);
    var u := PositionOfRank(cells, |cells|, s, r);
    assert Slot(norm, cells, u) == Cum(norm, s) + r;
    assert EntryOf(dt.entries[u], norm, cells, tableLog, u);
  }

  /** The states of symbol `s` fill the slots from `Cum(norm, s)` on. */
  lemma StatesOf(ct: CTable, norm: seq<int>, tableLog: nat, s: nat, r: nat)
    requires ValidNorm(norm, tableLog) && IsCTable(ct, norm, tableLog)
    requires s < |norm| && r < Weight(norm[s])
    ensures Cum(norm, s) + r < |ct.stateTable|
    ensures State(ct.stateTable[Cum(norm, s) + r], tableLog)
  {
    hide Low, Shr, Shl, Pow2, Highbit, SpreadOf, MaxBits, Cum, IsSpread, GoodTransform;
    var cells := SpreadOf(norm, tableLog);
    SpreadCounts(cells, norm, tableLog);
    var u := PositionOfRank(cells, |cells|, s, r);
    assert Slot(norm, cells, u) == Cum(norm, s) + r;
  }

  /** A decoding entry for symbol `s` with `nextState` `x`. */
  ghost predicate EntryFor(e: Entry, tableLog: nat, s: nat, x: nat)
  {
    && e.symbol == s
    && x > 0 && Highbit(x) <= tableLog
    && e.nbBits == tableLog - Highbit(x)
    && e.newState == Shl(x, e.nbBits) - Pow2(tableLog)
  }

  lemma TransformAt(ct: CTable, norm: seq<int>, tableLog: nat, s: nat)
    requires ValidNorm(norm, tableLog) && IsCTable(ct, norm, tableLog)
    requires s < |norm| && norm[s] != 0
    ensures |ct.symbolTT| == |norm|
    ensures 0 < Weight(norm[s]) <= Pow2(tableLog) && TransformOf(ct.symbolTT[s], norm, tableLog, s)
    ensures MIN_TABLELOG <= tableLog <= MAX_TABLELOG && norm[s] >= -1
  {
    WeightBound(norm, tableLog, s);
    assert GoodTransform(ct, norm, tableLog, s);
  }

  /** The main law of FSE.  Encoding `s` from state `x` sheds the low bits of `x`
      and moves to a state whose decoding entry names `s`, asks for as many bits,
      and with those bits gives `x` back. */
  lemma StepInverse(ct: CTable, dt: DTable, norm: seq<int>, tableLog: nat, s: nat, x: nat)
    requires ValidNorm(norm, tableLog) && IsCTable(ct, norm, tableLog) && IsDTable(dt, norm, tableLog)
    requires s < |norm| == |ct.symbolTT| && norm[s] != 0 && State(x, tableLog)
    ensures NbBitsOut(ct, s, x) <= tableLog && |dt.entries| == Pow2(tableLog)
    ensures 0 <= StateIndex(ct, s, x) < |ct.stateTable|
    ensures State(ct.stateTable[StateIndex(ct, s, x)], tableLog)
    ensures var e := dt.entries[ct.stateTable[StateIndex(ct, s, x)] - Pow2(tableLog)];
            && e.symbol == s && e.nbBits == NbBitsOut(ct, s, x)
            && e.newState + Low(x, e.nbBits) == x - Pow2(tableLog)
  {
    hide Low, Shr, Shl, Pow2, Highbit, IsCTable, IsDTable, Cum, ValidNorm, StateIndex, NbBitsOut, SpreadOf;
    StepTarget(ct, norm, tableLog, s, x);
    var nb := NbBitsOut(ct, s, x);
    TablesAgree(ct, dt, norm, tableLog, s, Shr(x, nb) - Weight(norm[s]));
    EntryUndoes(dt.entries[ct.stateTable[StateIndex(ct, s, x)] - Pow2(tableLog)], tableLog, s, x, nb);
  }

  lemma StepTarget(ct: CTable, norm: seq<int>, tableLog: nat, s: nat, x: nat)
    requires ValidNorm(norm, tableLog) && IsCTable(ct, norm, tableLog)
    requires s < |norm| == |ct.symbolTT| && norm[s] != 0 && State(x, tableLog)
    ensures NbBitsOut(ct, s, x) <= tableLog
    ensures Weight(norm[s]) <= Shr(x, NbBitsOut(ct, s, x)) < 2 * Weight(norm[s])
    ensures StateIndex(ct, s, x) == Cum(norm, s) + Shr(x, NbBitsOut(ct, s, x)) - Weight(norm[s])
  {
    hide Low, Shr, Shl, Pow2, Highbit, MaxBits, IsCTable, Cum, ValidNorm;
    TransformAt(ct, norm, tableLog, s);
    var n, nb, t := Weight(norm[s]), NbBitsOut(ct, s, x), ct.symbolTT[s];
    assert n <= Shr(x, nb) < 2 * n && nb <= tableLog by { BitsOut(n, tableLog, x, t.deltaNbBits, nb); }
    assert t.deltaFindState == Cum(norm, s) - n;
  }

  lemma StepInRange(ct: CTable, norm: seq<int>, tableLog: nat, s: nat, x: nat)
    requires ValidNorm(norm, tableLog) && IsCTable(ct, norm, tableLog)
    requires s < |norm| == |ct.symbolTT| && norm[s] != 0 && State(x, tableLog)
    ensures NbBitsOut(ct, s, x) <= tableLog <= MAX_TABLELOG
    ensures 0 <= StateIndex(ct, s, x) < |ct.stateTable|
    ensures State(ct.stateTable[StateIndex(ct, s, x)], tableLog)
  {
    hide Low, Shr, Shl, Pow2, Highbit, IsCTable, Cum, ValidNorm, StateIndex, NbBitsOut, State;
    TransformAt(ct, norm, tableLog, s);
    StepTarget(ct, norm, tableLog, s, x);
    StatesOf(ct, norm, tableLog, s, Shr(x, NbBitsOut(ct, s, x)) - Weight(norm[s]));
  }

  lemma EntryUndoes(e: Entry, tableLog: nat, s: nat, x: nat, nb: nat)
    requires State(x, tableLog) && nb <= tableLog
    requires EntryFor(e, tableLog, s, Shr(x, nb))
    ensures e.symbol == s && e.nbBits == nb && e.newState + Low(x, nb) == x - Pow2(tableLog)
  {
    hide Low, Shr, Shl, Pow2, Highbit;
    TopOfState(x, tableLog, nb);
    Split(x, nb);
  }

  lemma TopOfState(x: nat, tableLog: nat, nb: nat)
    requires State(x, tableLog) && nb <= tableLog
    ensures Shr(x, nb) > 0 && Highbit(Shr(x, nb)) == tableLog - nb
  {
    hide Low, Shr, Shl, Pow2, Highbit;
    var k := tableLog - nb;
    ShrVersusShl(x, Pow2(k), nb);
    ShrVersusShl(x, Pow2(k + 1), nb);
    ShlOne(k);
    ShlOne(k + 1);
    ShlShl(1, k, nb);
    ShlShl(1, k + 1, nb);
    ShlOne(tableLog);
    ShlOne(tableLog + 1);
    Pow2Next(tableLog);
    HighbitUnique(Shr(x, nb), k);
  }

  /** `FSE_initCState2`: the bits that the cheapest state of `s` would shed, */
  function FirstBits(ct: CTable, s: nat): nat
    requires s < |ct.symbolTT|
  {
    (ct.symbolTT[s].deltaNbBits + 0x8000) / 0x1_0000
  }

  /** ... and the index of that state. */
  function FirstIndex(ct: CTable, s: nat): int
    requires s < |ct.symbolTT|
  {
    var value := FirstBits(ct, s) * 0x1_0000 - ct.symbolTT[s].deltaNbBits;
    (if value < 0 then 0 else Shr(value, FirstBits(ct, s))) + ct.symbolTT[s].deltaFindState
  }

  /** The starting state of a chain decodes to its symbol, and asks for at least
      one more bit unless that symbol owns the whole table. */
  lemma FirstState(ct: CTable, dt: DTable, norm: seq<int>, tableLog: nat, s: nat)
    requires ValidNorm(norm, tableLog) && IsCTable(ct, norm, tableLog) && IsDTable(dt, norm, tableLog)
    requires s < |norm| == |ct.symbolTT| && norm[s] != 0
    ensures FirstBits(ct, s) * 0x1_0000 >= ct.symbolTT[s].deltaNbBits && |dt.entries| == Pow2(tableLog)
    ensures 0 <= FirstIndex(ct, s) < |ct.stateTable|
    ensures State(ct.stateTable[FirstIndex(ct, s)], tableLog)
    ensures var e := dt.entries[ct.stateTable[FirstIndex(ct, s)] - Pow2(tableLog)];
            && e.symbol == s && (e.nbBits == 0 <==> norm[s] == Pow2(tableLog))
  {
    hide Low, Shr, Shl, Pow2, Highbit, IsCTable, IsDTable, Cum, ValidNorm, FirstIndex, FirstBits;
    FirstTarget(ct, norm, tableLog, s);
    TransformAt(ct, norm, tableLog, s);
    TableNotOne(tableLog);
    TablesAgree(ct, dt, norm, tableLog, s, 0);
    HighbitOfWeight(Weight(norm[s]), tableLog);
  }

  lemma FirstTarget(ct: CTable, norm: seq<int>, tableLog: nat, s: nat)
    requires ValidNorm(norm, tableLog) && IsCTable(ct, norm, tableLog)
    requires s < |norm| == |ct.symbolTT| && norm[s] != 0
    ensures FirstBits(ct, s) * 0x1_0000 >= ct.symbolTT[s].deltaNbBits
    ensures FirstIndex(ct, s) == Cum(norm, s)
  {
    hide Low, Shr, Shl, Pow2, Highbit, MaxBits, IsCTable, Cum, ValidNorm;
    TransformAt(ct, norm, tableLog, s);
    var n, t := Weight(norm[s]), ct.symbolTT[s];
    var mb := MaxBits(n, tableLog);
    assert Shl(n, mb) <= 0x2000 by { MaxBitsBounds(n, tableLog); }
    assert FirstBits(ct, s) == mb;
    assert FirstBits(ct, s) * 0x1_0000 - t.deltaNbBits == Shl(n, mb);
    ShrShl(n, mb);
  }

  lemma FirstInRange(ct: CTable, norm: seq<int>, tableLog: nat, s: nat)
    requires ValidNorm(norm, tableLog) && IsCTable(ct, norm, tableLog)
    requires s < |norm| == |ct.symbolTT| && norm[s] != 0
    ensures 0 <= FirstIndex(ct, s) < |ct.stateTable|
    ensures State(ct.stateTable[FirstIndex(ct, s)], tableLog)
  {
    hide Low, Shr, Shl, Pow2, Highbit, IsCTable, Cum, ValidNorm, FirstIndex, FirstBits, State;
    FirstTarget(ct, norm, tableLog, s);
    TransformAt(ct, norm, tableLog, s);
    StatesOf(ct, norm, tableLog, s, 0);
  }

  lemma HighbitOfWeight(n: nat, tableLog: nat)
    requires 0 < n <= Pow2(tableLog)
    ensures Highbit(n) <= tableLog && (Highbit(n) == tableLog <==> n == Pow2(tableLog))
  {
    hide Pow2, Highbit;
    HighbitBounds(n);
    Pow2Next(tableLog);
    if n == Pow2(tableLog) {
      HighbitUnique(n, tableLog);
    } else if Highbit(n) >= tableLog {
      Pow2Mono(tableLog, Highbit(n));
    }
  }

  lemma TableNotOne(tableLog: nat)
    requires tableLog >= 1
    ensures Pow2(tableLog) >= 2
  {}

  lemma EntryAt(dt: DTable, norm: seq<int>, tableLog: nat, u: nat)
    returns (x: nat)
    requires ValidNorm(norm, tableLog) && IsDTable(dt, norm, tableLog)
    requires u < Pow2(tableLog)
    ensures |dt.entries| == Pow2(tableLog) && 0 <= dt.entries[u].symbol < |norm|
    ensures Weight(norm[dt.entries[u].symbol]) <= x < 2 * Weight(norm[dt.entries[u].symbol])
    ensures EntryFor(dt.entries[u], tableLog, dt.entries[u].symbol, x)
    ensures dt.fastMode ==> norm[dt.entries[u].symbol] < Pow2(tableLog - 1)
  {
    hide Low, Shr, Shl, Pow2, Highbit, SpreadOf, Cum, EntryFor, IsSpread;
    var cells := SpreadOf(norm, tableLog);
    SpreadCounts(cells, norm, tableLog);
    assert EntryOf(dt.entries[u], norm, cells, tableLog, u);
    x := NextState(norm, cells, u);
    EntrySymbol(dt.entries[u], tableLog, cells[u], x);
    RankMono(cells, u, |cells|, cells[u]);
  }

  lemma EntrySymbol(e: Entry, tableLog: nat, s: nat, x: nat)
    requires EntryFor(e, tableLog, s, x)
    ensures e.symbol == s
  {}

  /** Any state and any bits that an entry asks for lead to a state again. */
  lemma DecodeInRange(dt: DTable, norm: seq<int>, tableLog: nat, u: nat, bits: nat)
    requires ValidNorm(norm, tableLog) && IsDTable(dt, norm, tableLog)
    requires u < Pow2(tableLog) == |dt.entries| && bits < Pow2(dt.entries[u].nbBits)
    ensures dt.entries[u].nbBits <= tableLog
    ensures dt.entries[u].newState + bits < Pow2(tableLog)
    ensures 0 <= dt.entries[u].symbol < |norm|
  {
    hide Low, Shr, Shl, Pow2, Highbit, IsDTable, ValidNorm;
    var x := EntryAt(dt, norm, tableLog, u);
    var h, nb := Highbit(x), dt.entries[u].nbBits;
    HighbitBounds(x);
    ShlMono(x, Pow2(h + 1), nb);
    ShlOne(h + 1);
    ShlShl(1, h + 1, nb);
    ShlOne(tableLog + 1);
    Pow2Next(tableLog);
  }

  /** In fast mode every entry asks for at least one bit. */
  lemma FastNeedsBits(dt: DTable, norm: seq<int>, tableLog: nat, u: nat)
    requires ValidNorm(norm, tableLog) && IsDTable(dt, norm, tableLog)
    requires dt.fastMode && u < Pow2(tableLog) == |dt.entries|
    ensures dt.entries[u].nbBits >= 1
  {
    hide Low, Shr, Shl, Pow2, Highbit, IsDTable;
    var x := EntryAt(dt, norm, tableLog, u);
    TableNotOne(tableLog - 1);
    Pow2Next(tableLog - 1);
    HighbitOfWeight(x, tableLog);
  }

  /** Some cell of `s` asks for two bits or more. */
  ghost predicate AsksForTwo(dt: DTable, s: nat)
  {
    exists u :: 0 <= u < |dt.entries| && dt.entries[u].symbol == s && dt.entries[u].nbBits >= 2
  }

  /** Fast mode is for tables in which no symbol has half of the cells, which shows in the
      bits that are asked for. */
  lemma FastExactly(dt: DTable, norm: seq<int>, tableLog: nat)
    requires ValidNorm(norm, tableLog) && IsDTable(dt, norm, tableLog)
    ensures dt.fastMode <==> forall s :: 0 <= s < |norm| && norm[s] != 0 ==> AsksForTwo(dt, s)
  {
    hide Pow2, IsDTable, AsksForTwo;
    FastLimit(dt, norm, tableLog);
    HalfPositive(tableLog);
    forall s | 0 <= s < |norm| && norm[s] != 0 ensures AsksForTwo(dt, s) <==> Weight(norm[s]) < Pow2(tableLog - 1) {
      TwoBits(dt, norm, tableLog, s);
    }
  }

  lemma FastLimit(dt: DTable, norm: seq<int>, tableLog: nat)
    requires ValidNorm(norm, tableLog) && IsDTable(dt, norm, tableLog)
    ensures dt.fastMode <==> forall s :: 0 <= s < |norm| ==> norm[s] < Pow2(tableLog - 1)
  {}

  lemma HalfPositive(tableLog: nat)
    requires MIN_TABLELOG <= tableLog
    ensures Pow2(tableLog - 1) >= 2 && Pow2(tableLog) == 2 * Pow2(tableLog - 1)
  {}

  lemma TwoBits(dt: DTable, norm: seq<int>, tableLog: nat, s: nat)
    requires ValidNorm(norm, tableLog) && IsDTable(dt, norm, tableLog) && s < |norm| && norm[s] != 0
    ensures AsksForTwo(dt, s) <==> Weight(norm[s]) < Pow2(tableLog - 1)
  {
    hide Pow2, IsDTable, EntryFor;
    var n := Weight(norm[s]);
    if n < Pow2(tableLog - 1) {
      var u := FirstCell(dt, norm, tableLog, s);
      LongEntry(dt.entries[u], tableLog, s, n);
      assert dt.entries[u].symbol == s && dt.entries[u].nbBits >= 2;
    } else if AsksForTwo(dt, s) {
      var u :| 0 <= u < |dt.entries| && dt.entries[u].symbol == s && dt.entries[u].nbBits >= 2;
      ManyEntries(dt, norm, tableLog);
      var x := EntryAt(dt, norm, tableLog, u);
      LongEntry(dt.entries[u], tableLog, s, x);
    }
  }

  lemma ManyEntries(dt: DTable, norm: seq<int>, tableLog: nat)
    requires ValidNorm(norm, tableLog) && IsDTable(dt, norm, tableLog)
    ensures |dt.entries| == Pow2(tableLog)
  {}

  lemma LongEntry(e: Entry, tableLog: nat, s: nat, x: nat)
    requires EntryFor(e, tableLog, s, x) && tableLog >= 2
    ensures e.symbol == s && (e.nbBits >= 2 <==> x < Pow2(tableLog - 1))
  {
    hide Pow2, Highbit;
    HighbitBounds(x);
    if x < Pow2(tableLog - 1) {
      if Highbit(x) >= tableLog - 1 { Pow2Mono(tableLog - 1, Highbit(x)); }
    } else if Highbit(x) <= tableLog - 2 {
      Pow2Mono(Highbit(x) + 1, tableLog - 1);
    }
  }

  /** The first cell of a symbol. */
  lemma FirstCell(dt: DTable, norm: seq<int>, tableLog: nat, s: nat) returns (u: nat)
    requires ValidNorm(norm, tableLog) && IsDTable(dt, norm, tableLog) && s < |norm| && norm[s] != 0
    ensures u < |dt.entries| && EntryFor(dt.entries[u], tableLog, s, Weight(norm[s]))
  {
    hide Pow2, EntryFor, SpreadOf, IsSpread;
    var cells := SpreadOf(norm, tableLog);
    SpreadCounts(cells, norm, tableLog);
    u := PositionOfRank(cells, |cells|, s, 0);
    assert EntryOf(dt.entries[u], norm, cells, tableLog, u);
  }
}
