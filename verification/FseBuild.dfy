/** The two table builders: `FSE_buildCTable_wksp` and `FSE_buildDTable_internal`. */
module FseBuild {
  import opened Bits
  import opened Counting
  import opened FseSpread
  import opened FseTable
  import opened Results
  import FseCodec

  // ----- encoder -----

  /** `FSE_buildCTable_wksp`. */
  method BuildCTable(norm: seq<int>, tableLog: nat) returns (ct: CTable)
    requires ValidNorm(norm, tableLog)
    ensures IsCTable(ct, norm, tableLog)
  {
    var cumul, cells := StartPositions(norm, tableLog);
    SpreadIs(cells[..], norm, tableLog);
    var states := FillStates(norm, tableLog, cells, cumul);
    var transforms := FillTransforms(norm, tableLog);
    ct := CTable(tableLog, states, transforms);
    CTableParts(ct, norm, tableLog);
  }

  lemma SpreadIs(cells: seq<int>, norm: seq<int>, tableLog: nat)
    requires ValidNorm(norm, tableLog) && IsSpread(cells, norm, tableLog)
    ensures cells == SpreadOf(norm, tableLog)
  {
    hide IsSpread, SpreadOf;
    SpreadUnique(cells, SpreadOf(norm, tableLog), norm, tableLog);
  }

  lemma CTableParts(ct: CTable, norm: seq<int>, tableLog: nat)
    requires ValidNorm(norm, tableLog)
    requires ct.tableLog == tableLog && |ct.stateTable| == Pow2(tableLog) && |ct.symbolTT| == |norm|
    requires forall u :: 0 <= u < Pow2(tableLog) ==> 0 <= SpreadOf(norm, tableLog)[u] < |norm|
    requires StatesFollow(ct.stateTable, norm, SpreadOf(norm, tableLog))
    requires forall s :: 0 <= s < |norm| && norm[s] != 0 ==> GoodTransform(ct, norm, tableLog, s)
    ensures IsCTable(ct, norm, tableLog)
  {
    hide Pow2, SpreadOf, StatesFollow, GoodTransform, IsSpread;
    SpreadCounts(SpreadOf(norm, tableLog), norm, tableLog);
  }

  /** The first slot of each symbol, and the table of symbols. */
  method StartPositions(norm: seq<int>, tableLog: nat) returns (cumul: array<nat>, cells: array<int>)
    requires ValidNorm(norm, tableLog)
    ensures fresh(cumul) && fresh(cells)
    ensures cumul.Length == |norm| + 1 && cells.Length == Pow2(tableLog)
    ensures forall s :: 0 <= s < |norm| ==> cumul[s] == Cum(norm, s)
    ensures IsSpread(cells[..], norm, tableLog)
  {
    hide Pow2, IsSpread, LowDone, Cum, LowCount, LowCell, ValidNorm;
    var tableSize := Pow2(tableLog);
    var maxSV1 := |norm|;
    cumul := new nat[maxSV1 + 1];
    cells := new int[tableSize];
    var highThreshold := tableSize - 1;
    cumul[0] := 0;
    NothingLow(cells[..], norm, tableLog);
    for u := 1 to maxSV1 + 1
      invariant highThreshold == tableSize - 1 - LowCount(norm, u - 1)
      invariant forall s :: 0 <= s < u ==> cumul[s] == Cum(norm, s)
      invariant LowDone(cells[..], norm, tableLog, u - 1)
    {
      NextLow(cells[..], norm, tableLog, u - 1);
      if norm[u - 1] == -1 {
        cumul[u] := cumul[u - 1] + 1;
        cells[highThreshold] := u - 1;
        highThreshold := highThreshold - 1;
      } else {
        cumul[u] := cumul[u - 1] + norm[u - 1];
      }
    }
    cumul[maxSV1] := tableSize + 1;
    SpreadSymbols(cells, norm, tableLog, highThreshold);
  }

  /** The low-probability symbols among the first `k` are in their cells. */
  ghost predicate LowDone(cells: seq<int>, norm: seq<int>, tableLog: nat, k: nat)
    requires ValidNorm(norm, tableLog) && |cells| == Pow2(tableLog) && k <= |norm|
  {
    forall s :: 0 <= s < k && norm[s] < 0 ==> cells[LowCell(norm, tableLog, s)] == s
  }

  lemma NothingLow(cells: seq<int>, norm: seq<int>, tableLog: nat)
    requires ValidNorm(norm, tableLog) && |cells| == Pow2(tableLog)
    ensures LowCount(norm, 0) == 0 && Cum(norm, 0) == 0 && LowDone(cells, norm, tableLog, 0)
  {}

  lemma LowCellOrder(norm: seq<int>, tableLog: nat, s: nat, u: nat)
    requires Cum(norm, |norm|) == Pow2(tableLog)
    requires s <= u < |norm| && norm[s] < 0 && norm[u] < 0
    ensures LowCell(norm, tableLog, u) == Pow2(tableLog) - 1 - LowCount(norm, u)
    ensures s < u ==> LowCell(norm, tableLog, s) > LowCell(norm, tableLog, u)
  {
    hide Pow2;
    if s < u { CumMono(norm, s + 1, u); }
  }

  lemma NextLow(cells: seq<int>, norm: seq<int>, tableLog: nat, u: nat)
    requires ValidNorm(norm, tableLog) && |cells| == Pow2(tableLog) && u < |norm|
    requires LowDone(cells, norm, tableLog, u)
    ensures norm[u] >= -1
    ensures Cum(norm, u + 1) == Cum(norm, u) + Weight(norm[u])
    ensures LowCount(norm, u + 1) == LowCount(norm, u) + (if norm[u] == -1 then 1 else 0)
    ensures norm[u] == -1 ==>
              var at := Pow2(tableLog) - 1 - LowCount(norm, u);
              0 <= at < |cells| && LowDone(cells[at := u], norm, tableLog, u + 1)
    ensures norm[u] != -1 ==> LowDone(cells, norm, tableLog, u + 1)
  {
    hide Pow2, LowCell;
    if norm[u] == -1 {
      LowCellOrder(norm, tableLog, u, u);
      forall s | 0 <= s < u && norm[s] < 0
        ensures LowCell(norm, tableLog, s) != LowCell(norm, tableLog, u)
      {
        LowCellOrder(norm, tableLog, s, u);
      }
    }
  }

  /** Both builders choose the fast way exactly when no cell is taken yet. */
  method SpreadSymbols(cells: array<int>, norm: seq<int>, tableLog: nat, highThreshold: int)
    requires ValidNorm(norm, tableLog) && cells.Length == Pow2(tableLog)
    requires highThreshold == Ordinary(norm, tableLog) - 1
    requires LowDone(cells[..], norm, tableLog, |norm|)
    modifies cells
    ensures IsSpread(cells[..], norm, tableLog)
  {
    hide Pow2, IsSpread;
    var position;
    ValidSpreads(norm, tableLog);
    if highThreshold == Pow2(tableLog) - 1 {
      position := SpreadFast(cells, norm, tableLog);
    } else {
      position := SpreadSkipping(cells, norm, tableLog, highThreshold + 1);
    }
    assert position == 0;
  }

  /** Cells of the same symbol have different ranks, and different symbols have
      different ranges, so no slot is used twice. */
  lemma SlotsApart(norm: seq<int>, cells: seq<int>, tableLog: nat, v: nat, u: nat)
    requires ValidNorm(norm, tableLog) && cells == SpreadOf(norm, tableLog) && v < u < |cells|
    requires 0 <= cells[u] < |norm| && 0 <= cells[v] < |norm|
    ensures Slot(norm, cells, v) != Slot(norm, cells, u)
  {
    hide Pow2, SpreadOf, IsSpread, Cum;
    SlotRange(norm, cells, tableLog, u);
    SlotRange(norm, cells, tableLog, v);
    RankMono(cells, v, u, cells[v]);
    if cells[v] < cells[u] { CumMono(norm, cells[v] + 1, cells[u]); }
    if cells[u] < cells[v] { CumMono(norm, cells[u] + 1, cells[v]); }
  }

  lemma SlotRange(norm: seq<int>, cells: seq<int>, tableLog: nat, u: nat)
    requires ValidNorm(norm, tableLog) && cells == SpreadOf(norm, tableLog) && u < |cells|
    requires 0 <= cells[u] < |norm|
    ensures Cum(norm, cells[u]) <= Slot(norm, cells, u) < Cum(norm, cells[u] + 1) <= Pow2(tableLog)
  {
    hide Pow2, SpreadOf, IsSpread;
    SpreadCounts(cells, norm, tableLog);
    RankMono(cells, u, |cells|, cells[u]);
    CumMono(norm, cells[u] + 1, |norm|);
  }

  /** The state table, sorted by symbol. */
  method FillStates(norm: seq<int>, tableLog: nat, cells: array<int>, cumul: array<nat>) returns (states: seq<nat>)
    requires ValidNorm(norm, tableLog) && cells[..] == SpreadOf(norm, tableLog)
    requires cells.Length == Pow2(tableLog)
    requires cumul.Length == |norm| + 1 && forall s :: 0 <= s < |norm| ==> cumul[s] == Cum(norm, s)
    modifies cumul
    ensures |states| == Pow2(tableLog)
    ensures forall u :: 0 <= u < Pow2(tableLog) ==> 0 <= SpreadOf(norm, tableLog)[u] < |norm|
    ensures StatesFollow(states, norm, SpreadOf(norm, tableLog))
  {
    hide Pow2, SpreadOf, IsSpread, Cum;
    ghost var table := cells[..];
    var tableSize := Pow2(tableLog);
    var tableU16 := new nat[tableSize];
    SpreadCounts(table, norm, tableLog);
    for u := 0 to tableSize
      invariant cells[..] == table
      invariant forall s :: 0 <= s < |norm| ==> cumul[s] == Cum(norm, s) + Rank(table, u, s)
      invariant forall v :: 0 <= v < u ==>
                  Slot(norm, table, v) < tableSize && tableU16[Slot(norm, table, v)] == tableSize + v
    {
      var s := cells[u];
      SlotRange(norm, table, tableLog, u);
      forall v | 0 <= v < u ensures Slot(norm, table, v) != Slot(norm, table, u) {
        SlotsApart(norm, table, tableLog, v, u);
      }
      tableU16[cumul[s]] := tableSize + u;
      cumul[s] := cumul[s] + 1;
    }
    states := tableU16[..];
  }

  /** The symbol transformation table.  The entry of an absent symbol keeps the
      cost that `FSE_getMaxNbBits` reads; its `deltaFindState` is never used. */
  method FillTransforms(norm: seq<int>, tableLog: nat) returns (symbolTT: seq<Transform>)
    requires ValidNorm(norm, tableLog)
    ensures |symbolTT| == |norm|
    ensures forall ct: CTable, s :: ct.symbolTT == symbolTT && 0 <= s < |norm| && norm[s] != 0 ==>
              GoodTransform(ct, norm, tableLog, s)
  {
    hide Pow2, TransformOf, ValidNorm;
    var a := new Transform[|norm|](_ => Transform(0, 0));
    var total := 0;
    CumNone(norm);
    for s := 0 to |norm|
      invariant total == Cum(norm, s)
      invariant forall t :: 0 <= t < s && norm[t] != 0 ==>
                  0 < Weight(norm[t]) <= Pow2(tableLog) && TransformOf(a[t], norm, tableLog, t)
    {
      WeightBound(norm, tableLog, s);
      a[s] := OneTransform(norm, tableLog, s, total);
      total := total + (if norm[s] == -1 then 1 else norm[s]);
      CumNext(norm, tableLog, s);
    }
    symbolTT := a[..];
  }

  lemma CumNone(norm: seq<int>)
    ensures Cum(norm, 0) == 0
  {}

  lemma CumNext(norm: seq<int>, tableLog: nat, s: nat)
    requires ValidNorm(norm, tableLog) && s < |norm|
    ensures Cum(norm, s + 1) == Cum(norm, s) + (if norm[s] == -1 then 1 else norm[s])
  {}

  method OneTransform(norm: seq<int>, tableLog: nat, s: nat, total: nat) returns (t: Transform)
    requires ValidNorm(norm, tableLog) && s < |norm| && total == Cum(norm, s)
    requires Weight(norm[s]) <= Pow2(tableLog)
    ensures norm[s] != 0 ==> TransformOf(t, norm, tableLog, s)
  {
    hide Pow2, Shl, Highbit, Cum;
    Pow2Mono(tableLog, MAX_TABLELOG);
    Pow2Values();
    if norm[s] == 0 {
      return Transform(0, (tableLog + 1) * 0x1_0000 - Pow2(tableLog));
    }
    MaxBitsBounds(Weight(norm[s]), tableLog);
    ShlOne(tableLog);
    if norm[s] == -1 || norm[s] == 1 {
      return Transform(total - 1, tableLog * 0x1_0000 - Pow2(tableLog));
    }
    HighbitBelow(norm[s], tableLog);
    var maxBitsOut := tableLog - Highbit(norm[s] - 1);
    var minStatePlus := Shl(norm[s], maxBitsOut);
    return Transform(total - norm[s], maxBitsOut * 0x1_0000 - minStatePlus);
  }

  /** `FSE_buildCTable_rle`: a table of table log 0, for one symbol.  The entries of other
      symbols are never read. */
  method BuildCTableRle(symbolValue: Byte) returns (ct: CTable, ghost norm: seq<int>)
    ensures FseCodec.Encodes(ct, norm, 0) && |norm| == symbolValue + 1 && norm[symbolValue] != 0
  {
    norm := seq(symbolValue + 1, s => if s == symbolValue then 1 else 0);
    var symbolTT := new Transform[symbolValue + 1](_ => Transform(0, 0));
    ct := CTable(0, [0, 0], symbolTT[..]);
  }

  // ----- decoder -----

  /** Counters that do not add up, in a way that the walk over the ordinary cells notices. */
  ghost predicate Noticed(norm: seq<int>, tableLog: nat)
  {
    0 < LowCount(norm, |norm|) < Pow2(tableLog) && Regular(norm, |norm|) % Ordinary(norm, tableLog) != 0
  }

  /** `FSE_buildDTable_internal`.  It asks for counters that add up, but answers others, as
      long as some symbol is of low probability and the walk does not end where it began. */
  method BuildDTable(norm: seq<int>, tableLog: nat) returns (r: Result<DTable>)
    requires 0 < |norm| && MIN_TABLELOG <= tableLog
    requires forall s :: 0 <= s < |norm| ==> norm[s] >= -1
    requires Cum(norm, |norm|) == Pow2(tableLog) || Noticed(norm, tableLog)
    ensures |norm| > MAX_SYMBOL_VALUE + 1 ==> r == Err(MaxSymbolValueTooLarge)
    ensures |norm| <= MAX_SYMBOL_VALUE + 1 && tableLog > MAX_TABLELOG ==> r == Err(TableLogTooLarge)
    ensures |norm| <= MAX_SYMBOL_VALUE + 1 && tableLog <= MAX_TABLELOG ==>
      if ValidNorm(norm, tableLog) then r.Ok? && IsDTable(r.value, norm, tableLog) else r == Err(Generic)
  {
    hide Pow2, IsSpread, LowDone, Cum, LowCount, Regular;
    if |norm| - 1 > MAX_SYMBOL_VALUE { return Err(MaxSymbolValueTooLarge); }
    if tableLog > MAX_TABLELOG { return Err(TableLogTooLarge); }
    WalkFits(norm, tableLog);
    var symbolNext, cells, fastMode, highThreshold := InitDecoding(norm, tableLog);
    var position;
    if highThreshold == Pow2(tableLog) - 1 {
      position := SpreadFast(cells, norm, tableLog);
    } else {
      if ValidNorm(norm, tableLog) { LowStarts(cells[..], norm, tableLog); }
      position := SpreadSkipping(cells, norm, tableLog, highThreshold + 1);
    }
    if position != 0 { return Err(Generic); }
    SpreadIs(cells[..], norm, tableLog);
    var entries := FillEntries(norm, tableLog, cells, symbolNext);
    r := Ok(DTable(tableLog, fastMode, entries));
    DTableParts(r.value, norm, tableLog);
  }

  lemma WalkFits(norm: seq<int>, tableLog: nat)
    requires 0 < |norm| <= MAX_SYMBOL_VALUE + 1 && MIN_TABLELOG <= tableLog <= MAX_TABLELOG
    requires forall s :: 0 <= s < |norm| ==> norm[s] >= -1
    requires Cum(norm, |norm|) == Pow2(tableLog) || Noticed(norm, tableLog)
    ensures Spreadable(norm, tableLog) && LowCount(norm, |norm|) <= Pow2(tableLog)
    ensures !ValidNorm(norm, tableLog) ==> Noticed(norm, tableLog)
  {
    hide Pow2, Cum, LowCount, Regular;
    CumParts(norm, |norm|);
  }

  lemma DTableSize(dt: DTable, norm: seq<int>, tableLog: nat)
    requires ValidNorm(norm, tableLog) && IsDTable(dt, norm, tableLog)
    ensures dt.tableLog == tableLog && |dt.entries| == Pow2(tableLog)
  {}

  lemma LowStarts(cells: seq<int>, norm: seq<int>, tableLog: nat)
    requires ValidNorm(norm, tableLog) && |cells| == Pow2(tableLog) && LowDone(cells, norm, tableLog, |norm|)
    ensures SpreadUpTo(cells, norm, tableLog, 0)
  {}

  lemma DTableParts(dt: DTable, norm: seq<int>, tableLog: nat)
    requires ValidNorm(norm, tableLog)
    requires dt.tableLog == tableLog && |dt.entries| == Pow2(tableLog)
    requires dt.fastMode <==> forall s :: 0 <= s < |norm| ==> norm[s] < Pow2(tableLog - 1)
    requires forall u :: 0 <= u < Pow2(tableLog) ==> 0 <= SpreadOf(norm, tableLog)[u] < |norm|
    requires forall u :: 0 <= u < Pow2(tableLog) ==>
               EntryOf(dt.entries[u], norm, SpreadOf(norm, tableLog), tableLog, u)
    ensures IsDTable(dt, norm, tableLog)
  {
    hide Pow2, SpreadOf, EntryOf, IsSpread;
    SpreadCounts(SpreadOf(norm, tableLog), norm, tableLog);
  }

  /** Lays down the low-probability symbols and starts `symbolNext`. */
  method InitDecoding(norm: seq<int>, tableLog: nat)
    returns (symbolNext: array<nat>, cells: array<int>, fastMode: bool, highThreshold: int)
    requires tableLog > 0 && LowCount(norm, |norm|) <= Pow2(tableLog) && forall s :: 0 <= s < |norm| ==> norm[s] >= -1
    ensures fresh(symbolNext) && fresh(cells)
    ensures symbolNext.Length == |norm| && cells.Length == Pow2(tableLog)
    ensures forall s :: 0 <= s < |norm| ==> symbolNext[s] == Weight(norm[s])
    ensures fastMode <==> forall s :: 0 <= s < |norm| ==> norm[s] < Pow2(tableLog - 1)
    ensures highThreshold == Ordinary(norm, tableLog) - 1
    ensures ValidNorm(norm, tableLog) ==> LowDone(cells[..], norm, tableLog, |norm|)
  {
    hide Pow2, IsSpread, LowDone, Cum, LowCount, LowCell, ValidNorm;
    var tableSize := Pow2(tableLog);
    var largeLimit := Pow2(tableLog - 1);
    symbolNext := new nat[|norm|];
    cells := new int[tableSize];
    fastMode := true;
    highThreshold := tableSize - 1;
    LowNext(norm, 0);
    if ValidNorm(norm, tableLog) { NothingLow(cells[..], norm, tableLog); }
    for s := 0 to |norm|
      invariant highThreshold == tableSize - 1 - LowCount(norm, s)
      invariant forall t :: 0 <= t < s ==> symbolNext[t] == Weight(norm[t])
      invariant fastMode <==> forall t :: 0 <= t < s ==> norm[t] < largeLimit
      invariant ValidNorm(norm, tableLog) ==> LowDone(cells[..], norm, tableLog, s)
    {
      LowNext(norm, s);
      CumMono(norm, s + 1, |norm|);
      if ValidNorm(norm, tableLog) { NextLow(cells[..], norm, tableLog, s); }
      if norm[s] == -1 {
        ghost var before := cells[..];
        cells[highThreshold] := s;
        assert cells[..] == before[highThreshold := s];
        highThreshold := highThreshold - 1;
        symbolNext[s] := 1;
      } else {
        if norm[s] >= largeLimit { fastMode := false; }
        symbolNext[s] := norm[s];
      }
    }
  }

  lemma LowNext(norm: seq<int>, s: nat)
    requires s <= |norm|
    ensures LowCount(norm, 0) == 0
    ensures s < |norm| ==> LowCount(norm, s + 1) == LowCount(norm, s) + (if norm[s] < 0 then 1 else 0)
  {}

  method FillEntries(norm: seq<int>, tableLog: nat, cells: array<int>, symbolNext: array<nat>)
    returns (entries: seq<Entry>)
    requires ValidNorm(norm, tableLog) && cells[..] == SpreadOf(norm, tableLog)
    requires cells.Length == Pow2(tableLog)
    requires symbolNext.Length == |norm| && forall s :: 0 <= s < |norm| ==> symbolNext[s] == Weight(norm[s])
    modifies symbolNext
    ensures |entries| == Pow2(tableLog)
    ensures forall u :: 0 <= u < Pow2(tableLog) ==> 0 <= SpreadOf(norm, tableLog)[u] < |norm|
    ensures forall u :: 0 <= u < Pow2(tableLog) ==>
              EntryOf(entries[u], norm, SpreadOf(norm, tableLog), tableLog, u)
  {
    hide Pow2, SpreadOf, IsSpread, Highbit, Shl;
    ghost var table := cells[..];
    var tableSize := Pow2(tableLog);
    var tableDecode := new Entry[tableSize](_ => Entry(0, 0, 0));
    SpreadCounts(table, norm, tableLog);
    for u := 0 to tableSize
      invariant cells[..] == table
      invariant forall s :: 0 <= s < |norm| ==> symbolNext[s] == Weight(norm[s]) + Rank(table, u, s)
      invariant forall v :: 0 <= v < u ==> EntryOf(tableDecode[v], norm, table, tableLog, v)
    {
      var symbol := cells[u];
      var nextState := symbolNext[symbol];
      NextStateRange(norm, table, tableLog, u);
      symbolNext[symbol] := nextState + 1;
      var nbBits := tableLog - Highbit(nextState);
      tableDecode[u] := Entry(Shl(nextState, nbBits) - tableSize, symbol, nbBits);
    }
    entries := tableDecode[..];
  }

  lemma NextStateRange(norm: seq<int>, cells: seq<int>, tableLog: nat, u: nat)
    requires ValidNorm(norm, tableLog) && cells == SpreadOf(norm, tableLog) && u < |cells|
    requires 0 <= cells[u] < |norm|
    ensures var x := NextState(norm, cells, u);
            x > 0 && Highbit(x) <= tableLog && Shl(x, tableLog - Highbit(x)) >= Pow2(tableLog)
  {
    hide Pow2, SpreadOf, IsSpread, Highbit, Shl;
    SpreadCounts(cells, norm, tableLog);
    RankMono(cells, u, |cells|, cells[u]);
    WeightBound(norm, tableLog, cells[u]);
    var x := NextState(norm, cells, u);
    var h := Highbit(x);
    HighbitBounds(x);
    Pow2Next(tableLog);
    if h > tableLog { Pow2Mono(tableLog + 1, h); }
    ShlMono(Pow2(h), x, tableLog - h);
    ShlOne(h);
    ShlShl(1, h, tableLog - h);
    ShlOne(tableLog);
  }
}
