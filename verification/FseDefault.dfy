/** The decoding table for the default distribution of offset codes, as
    `OF_defaultDTable` lists it. */
module FseDefault {
  import opened Bits
  import opened Counting
  import opened FseSpread
  import opened FseTable

  /** `OF_defaultNorm`. */
  function OffsetNorm(): (norm: seq<int>)
    ensures |norm| == 29 && forall s :: 0 <= s < 29 ==> norm[s] == OffsetCount(s)
  {
    seq(29, s => OffsetCount(s))
  }

  function OffsetCount(s: int): int { if s < 6 then 1 else if s < 9 then 2 else if s < 24 then 1 else -1 }

  /** The ordinary cells of the first `k` codes. */
  function OffsetCells(k: nat): int { if k <= 6 then k else if k <= 9 then 2 * k - 6 else if k <= 24 then k + 3 else 27 }

  lemma {:induction false} OffsetSums(k: nat)
    requires k <= 29
    ensures Regular(OffsetNorm(), k) == OffsetCells(k)
    ensures LowCount(OffsetNorm(), k) == if k <= 24 then 0 else k - 24
    ensures Cum(OffsetNorm(), k) == if k <= 24 then OffsetCells(k) else k + 3
  {
    if k > 0 { OffsetSums(k - 1); }
  }

  lemma OffsetNormValid()
    ensures ValidNorm(OffsetNorm(), 5) && Ordinary(OffsetNorm(), 5) == 27
  {
    Pow2Values();
    OffsetSums(29);
  }

  ghost function OffsetSpread(): (cells: seq<int>)
    ensures |cells| == 32
  {
    OffsetNormValid();
    Pow2Values();
    SpreadOf(OffsetNorm(), 5)
  }

  /** The code that the cell `u` belongs to. */
  ghost function Owner(u: nat): int { if u < 32 then OffsetSpread()[u] else -1 }

  lemma {:induction false} TimesIs(j: nat, q: nat)
    ensures Times(j, q) == j * q
  {
    if j > 0 { TimesIs(j - 1, q); }
  }

  /** The walk goes by 23 cells. */
  lemma Visited(j: nat, v: nat)
    requires v == j * 23 % 32
    ensures Visit(j, 5) == v && Kept(j + 1, 27, 5) == Kept(j, 27, 5) + (if v < 27 then 1 else 0)
  {
    hide Low, Kept, Pow2, Times;
    Pow2Values();
    TimesIs(j, 23);
    LowIsMod(j * 23, 5);
    KeptNext(j, 27, 5);
  }

  lemma Owned(j: nat, v: nat, k: nat, s: nat)
    requires j < 32 && Visit(j, 5) == v < 27 && Kept(j, 27, 5) == k && s < 24 && OffsetCells(s) <= k < OffsetCells(s + 1)
    ensures Owner(v) == s
  {
    hide Visit, Kept, Pow2, Regular, Ordinary, OffsetCells;
    OffsetNormValid();
    Pow2Values();
    var cells := SpreadOf(OffsetNorm(), 5);
    assert Owns(OffsetNorm(), 5, Kept(j, 27, 5), cells[Visit(j, 5)]);
    OwnerIs(cells[v], k, s);
  }

  lemma OwnerIs(t: int, k: nat, s: nat)
    requires Owns(OffsetNorm(), 5, k, t) && s < 24 && OffsetCells(s) <= k < OffsetCells(s + 1)
    ensures t == s
  {
    hide Regular;
    OffsetSums(t);
    OffsetSums(t + 1);
  }

  lemma LowOwners()
    ensures Owner(31) == 24 && Owner(30) == 25 && Owner(29) == 26 && Owner(28) == 27 && Owner(27) == 28
  {
    LowOwner(24);
    LowOwner(25);
    LowOwner(26);
    LowOwner(27);
    LowOwner(28);
  }

  lemma LowOwner(s: nat)
    requires 24 <= s < 29
    ensures Owner(55 - s) == s
  {
    hide Visit, Kept, Pow2, Regular, Ordinary;
    OffsetNormValid();
    Pow2Values();
    OffsetSums(s);
    assert LowCell(OffsetNorm(), 5, s) == 55 - s;
  }


  ghost predicate AllOwners()
  {
    && Owner(0) == 0 && Owner(1) == 6 && Owner(2) == 9 && Owner(3) == 15 && Owner(4) == 21 && Owner(5) == 3 && Owner(6) == 7 && Owner(7) == 12
    && Owner(8) == 18 && Owner(9) == 23 && Owner(10) == 5 && Owner(11) == 8 && Owner(12) == 14 && Owner(13) == 20 && Owner(14) == 2 && Owner(15) == 7
    && Owner(16) == 11 && Owner(17) == 17 && Owner(18) == 22 && Owner(19) == 4 && Owner(20) == 8 && Owner(21) == 13 && Owner(22) == 19 && Owner(23) == 1
    && Owner(24) == 6 && Owner(25) == 10 && Owner(26) == 16 && Owner(27) == 28 && Owner(28) == 27 && Owner(29) == 26 && Owner(30) == 25 && Owner(31) == 24
  }

  lemma WalkAll()
    ensures AllOwners()
  {
    hide Owner, Kept, Visit;
    NoneKept();
    Visited(0, 0);
    Owned(0, 0, 0, 0);
    Visited(1, 23);
    Owned(1, 23, 1, 1);
    Visited(2, 14);
    Owned(2, 14, 2, 2);
    Visited(3, 5);
    Owned(3, 5, 3, 3);
    Visited(4, 28);
    Visited(5, 19);
    Owned(5, 19, 4, 4);
    Visited(6, 10);
    Owned(6, 10, 5, 5);
    Visited(7, 1);
    Owned(7, 1, 6, 6);
    Visited(8, 24);
    Owned(8, 24, 7, 6);
    Visited(9, 15);
    Owned(9, 15, 8, 7);
    Visited(10, 6);
    Owned(10, 6, 9, 7);
    Visited(11, 29);
    Visited(12, 20);
    Owned(12, 20, 10, 8);
    Visited(13, 11);
    Owned(13, 11, 11, 8);
    Visited(14, 2);
    Owned(14, 2, 12, 9);
    Visited(15, 25);
    Owned(15, 25, 13, 10);
    Visited(16, 16);
    Owned(16, 16, 14, 11);
    Visited(17, 7);
    Owned(17, 7, 15, 12);
    Visited(18, 30);
    Visited(19, 21);
    Owned(19, 21, 16, 13);
    Visited(20, 12);
    Owned(20, 12, 17, 14);
    Visited(21, 3);
    Owned(21, 3, 18, 15);
    Visited(22, 26);
    Owned(22, 26, 19, 16);
    Visited(23, 17);
    Owned(23, 17, 20, 17);
    Visited(24, 8);
    Owned(24, 8, 21, 18);
    Visited(25, 31);
    Visited(26, 22);
    Owned(26, 22, 22, 19);
    Visited(27, 13);
    Owned(27, 13, 23, 20);
    Visited(28, 4);
    Owned(28, 4, 24, 21);
    Visited(29, 27);
    Visited(30, 18);
    Owned(30, 18, 25, 22);
    Visited(31, 9);
    Owned(31, 9, 26, 23);
    LowOwners();
  }

  lemma NoneKept()
    ensures Kept(0, 27, 5) == 0
  {}

  // ----- the entries -----

  lemma EntryAtCell(dt: DTable, u: nat)
    requires ValidNorm(OffsetNorm(), 5) && IsDTable(dt, OffsetNorm(), 5) && u < 32
    ensures |dt.entries| == 32 && 0 <= Owner(u) < 29
    ensures OffsetSpread()[u] == Owner(u) && Rank(OffsetSpread(), 32, Owner(u)) == Weight(OffsetCount(Owner(u)))
    ensures EntryFor(dt.entries[u], 5, Owner(u), Weight(OffsetCount(Owner(u))) + Rank(OffsetSpread(), u, Owner(u)))
  {
    hide EntryFor, Rank, Pow2, ValidNorm;
    Pow2Values();
    var cells := SpreadOf(OffsetNorm(), 5);
    SpreadCounts(cells, OffsetNorm(), 5);
    assert EntryOf(dt.entries[u], OffsetNorm(), cells, 5, u);
  }

  lemma EntryValue(e: Entry, s: nat, x: nat)
    requires EntryFor(e, 5, s, x) && 1 <= x <= 3
    ensures e == if x == 1 then Entry(0, s, 5) else if x == 2 then Entry(0, s, 4) else Entry(16, s, 4)
  {
    Pow2Values();
    HighbitBounds(x);
    assert Shl(1, 5) == 32 && Shl(2, 4) == 32 && Shl(3, 4) == 48;
  }

  /** A code with one cell. */
  lemma Once(dt: DTable, u: nat, s: nat)
    requires ValidNorm(OffsetNorm(), 5) && IsDTable(dt, OffsetNorm(), 5)
    requires u < 32 && Owner(u) == s && (s < 6 || 9 <= s < 29)
    ensures |dt.entries| == 32 && dt.entries[u] == Entry(0, s, 5)
  {
    hide EntryFor, Rank, IsDTable, ValidNorm, Owner;
    EntryAtCell(dt, u);
    RankMono(OffsetSpread(), u, 32, s);
    EntryValue(dt.entries[u], s, 1);
  }

  /** A code with two cells. */
  lemma Twice(dt: DTable, u: nat, v: nat, s: nat)
    requires ValidNorm(OffsetNorm(), 5) && IsDTable(dt, OffsetNorm(), 5)
    requires u < v < 32 && Owner(u) == Owner(v) == s && 6 <= s < 9
    ensures |dt.entries| == 32 && dt.entries[u] == Entry(0, s, 4) && dt.entries[v] == Entry(16, s, 4)
  {
    hide EntryFor, Rank, IsDTable, ValidNorm, Owner;
    EntryAtCell(dt, u);
    EntryAtCell(dt, v);
    RankMono(OffsetSpread(), u, v, s);
    RankMono(OffsetSpread(), v, 32, s);
    EntryValue(dt.entries[u], s, 2);
    EntryValue(dt.entries[v], s, 3);
  }

  function Row0(): seq<Entry>
  {
    [Entry(0, 0, 5), Entry(0, 6, 4), Entry(0, 9, 5), Entry(0, 15, 5),
     Entry(0, 21, 5), Entry(0, 3, 5), Entry(0, 7, 4), Entry(0, 12, 5)]
  }

  function Row1(): seq<Entry>
  {
    [Entry(0, 18, 5), Entry(0, 23, 5), Entry(0, 5, 5), Entry(0, 8, 4),
     Entry(0, 14, 5), Entry(0, 20, 5), Entry(0, 2, 5), Entry(16, 7, 4)]
  }

  function Row2(): seq<Entry>
  {
    [Entry(0, 11, 5), Entry(0, 17, 5), Entry(0, 22, 5), Entry(0, 4, 5),
     Entry(16, 8, 4), Entry(0, 13, 5), Entry(0, 19, 5), Entry(0, 1, 5)]
  }

  function Row3(): seq<Entry>
  {
    [Entry(16, 6, 4), Entry(0, 10, 5), Entry(0, 16, 5), Entry(0, 28, 5),
     Entry(0, 27, 5), Entry(0, 26, 5), Entry(0, 25, 5), Entry(0, 24, 5)]
  }

  lemma RowIs0(dt: DTable)
    requires ValidNorm(OffsetNorm(), 5) && IsDTable(dt, OffsetNorm(), 5) && AllOwners()
    ensures |dt.entries| == 32 && dt.entries[0..8] == Row0()
  {
    hide IsDTable, ValidNorm, Owner;
    Once(dt, 0, 0);
    Twice(dt, 1, 24, 6);
    Once(dt, 2, 9);
    Once(dt, 3, 15);
    Once(dt, 4, 21);
    Once(dt, 5, 3);
    Twice(dt, 6, 15, 7);
    Once(dt, 7, 12);
  }

  lemma RowIs1(dt: DTable)
    requires ValidNorm(OffsetNorm(), 5) && IsDTable(dt, OffsetNorm(), 5) && AllOwners()
    ensures |dt.entries| == 32 && dt.entries[8..16] == Row1()
  {
    hide IsDTable, ValidNorm, Owner;
    Once(dt, 8, 18);
    Once(dt, 9, 23);
    Once(dt, 10, 5);
    Twice(dt, 11, 20, 8);
    Once(dt, 12, 14);
    Once(dt, 13, 20);
    Once(dt, 14, 2);
    Twice(dt, 6, 15, 7);
  }

  lemma RowIs2(dt: DTable)
    requires ValidNorm(OffsetNorm(), 5) && IsDTable(dt, OffsetNorm(), 5) && AllOwners()
    ensures |dt.entries| == 32 && dt.entries[16..24] == Row2()
  {
    hide IsDTable, ValidNorm, Owner;
    Once(dt, 16, 11);
    Once(dt, 17, 17);
    Once(dt, 18, 22);
    Once(dt, 19, 4);
    Twice(dt, 11, 20, 8);
    Once(dt, 21, 13);
    Once(dt, 22, 19);
    Once(dt, 23, 1);
  }

  lemma RowIs3(dt: DTable)
    requires ValidNorm(OffsetNorm(), 5) && IsDTable(dt, OffsetNorm(), 5) && AllOwners()
    ensures |dt.entries| == 32 && dt.entries[24..32] == Row3()
  {
    hide IsDTable, ValidNorm, Owner;
    Twice(dt, 1, 24, 6);
    Once(dt, 25, 10);
    Once(dt, 26, 16);
    Once(dt, 27, 28);
    Once(dt, 28, 27);
    Once(dt, 29, 26);
    Once(dt, 30, 25);
    Once(dt, 31, 24);
  }

  /** Every table that the builder can make of the distribution is the one listed. */
  lemma OffsetTable(dt: DTable)
    requires ValidNorm(OffsetNorm(), 5) && IsDTable(dt, OffsetNorm(), 5)
    ensures dt.entries == Row0() + Row1() + Row2() + Row3()
  {
    hide IsDTable, ValidNorm, Owner, Row0, Row1, Row2, Row3;
    OffsetNormValid();
    WalkAll();
    RowIs0(dt);
    RowIs1(dt);
    RowIs2(dt);
    RowIs3(dt);
    var e := dt.entries;
    assert e == e[0..8] + e[8..16] + e[16..24] + e[24..32];
  }
}
