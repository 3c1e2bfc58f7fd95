/** The description of a Huffman table: `HUF_writeCTable`, `HUF_readStats` and
    `HUF_readCTable`. */
module HufHeader {
  import opened Bits
  import opened Counting
  import opened Kraft
  import opened BitStream
  import opened Results
  import opened HufCodes
  import opened HufWeights
  import HufStream
  import FseSpread
  import FseTable
  import FseBuild
  import FseCodec
  import FseDecoder
  import NCount
  import NCountWriter
  import NCountReader
  import Normalize

  // ----- weights through FSE -----

  const MAX_FSE_TABLELOG := 6

  /** `HUF_compressWeights`' answers: 0, 1, or a size. */
  datatype Packed = NotCompressible | SingleSymbol | Packed(bytes: seq<Byte>)

  /** How weights were packed. */
  datatype Packing = Packing(norm: seq<int>, tableLog: nat, ct: FseTable.CTable, split: nat)

  /** A header for the counts, and the FSE stream of the weights. */
  ghost predicate Packs(bytes: seq<Byte>, ws: seq<Byte>, p: Packing)
  {
    && p.split <= |bytes| && p.tableLog <= MAX_FSE_TABLELOG
    && NCountReader.IsHeader(bytes[..p.split], p.norm, p.tableLog)
    && FseCodec.Shared(p.norm, p.tableLog) && FseCodec.Codable(p.ct, p.norm, p.tableLog, ws)
    && 2 <= |ws| && Sealed(bytes[p.split..], FseCodec.EncodeAll(p.ct, p.norm, p.tableLog, ws))
  }

  /** `FSE_DECOMPRESS_WKSP_SIZE`, in bytes, for symbols below `maxSV1`: the table, 256 counts,
      and the space to build in. */
  function WkspSize(tableLog: nat, maxSV1: nat): nat
  {
    4 * (1 + Pow2(tableLog) + 1 + (2 * maxSV1 + Pow2(tableLog) + 8 + 3) / 4 + 256 / 2 + 1)
  }

  /** `sizeof(FSE_DecompressWksp)`. */
  const COUNTS_SIZE := 512

  /** `HUF_READ_STATS_WORKSPACE_SIZE`: for table log 6 and the counts of twelve weights. */
  const READ_STATS_WKSP := WkspSize(MAX_FSE_TABLELOG, HUF_TABLELOG_MAX)

  /** What that workspace can take. */
  predicate Readable(p: Packing) { WkspSize(p.tableLog, |p.norm|) <= READ_STATS_WKSP }

  lemma ReadableExactly(p: Packing)
    requires 5 <= p.tableLog <= MAX_FSE_TABLELOG
    ensures READ_STATS_WKSP == 876
    ensures Readable(p) <==> |p.norm| <= if p.tableLog == 5 then 92 else 12
  {
    hide Pow2;
    Pow2Values();
  }

  /** What `FSE_decompress_wksp` makes of a source.  The size that is asked for depends on
      what the header says. */
  ghost predicate Unpacks(r: Result<seq<Byte>>, src: seq<Byte>, capacity: nat, maxLog: nat, wkspSize: nat)
  {
    var padded := NCountReader.Padded(src);
    if wkspSize < COUNTS_SIZE then r == Err(Generic) else
    match NCountReader.Goal(padded, 256)
    case Err(e) => r == Err(e)
    case Ok(p) =>
      var size := (p.bits + 7) / 8;
      if size > |src| then r == Err(CorruptionDetected)
      else if p.tableLog > maxLog || WkspSize(p.tableLog, |p.norm|) > wkspSize then r == Err(TableLogTooLarge)
      else exists dt: FseTable.DTable :: Decodes(r, dt, p.norm, p.tableLog, src[size..], capacity)
  }

  ghost predicate Decodes(r: Result<seq<Byte>>, dt: FseTable.DTable, norm: seq<int>, tableLog: nat, src: seq<Byte>, capacity: nat)
  {
    FseCodec.Decodable(dt, norm, tableLog) && r == FseDecoder.Decoded(dt, norm, tableLog, src, capacity)
  }

  /** What was packed comes back exactly when its counts fit the workspace of
      `HUF_readStats`; otherwise it is refused. */
  lemma PackedBack(bytes: seq<Byte>, ws: seq<Byte>, p: Packing, r: Result<seq<Byte>>, capacity: nat)
    requires Packs(bytes, ws, p) && |ws| <= capacity && Unpacks(r, bytes, capacity, MAX_FSE_TABLELOG, READ_STATS_WKSP)
    ensures r == if Readable(p) then Ok(ws) else Err(TableLogTooLarge)
  {
    hide NCountReader.Goal, LeNat, NCount.Header, FseTable.IsDTable, FseTable.IsCTable, FseCodec.EncodeAll, Sealed, FseCodec.Shared,
         FseDecoder.Decoded, Pow2, FseSpread.Cum, WkspSize;
    assert READ_STATS_WKSP == 876 by { ReadableExactly(Packing([0], 5, p.ct, 0)); }
    assert bytes == bytes[..p.split] + bytes[p.split..];
    NCountReader.HeaderBack(p.norm, p.tableLog, bytes[..p.split], bytes[p.split..], 256);
    var size := (NCount.Header(p.norm, p.tableLog).value.len + 7) / 8;
    assert size == p.split;
    if Readable(p) {
      var dt: FseTable.DTable :| Decodes(r, dt, p.norm, p.tableLog, bytes[size..], capacity);
      FseDecoder.StreamRoundTrip(p.ct, dt, p.norm, p.tableLog, ws, bytes[p.split..], capacity);
    }
  }

  /** Thirteen counts at table log 6. */
  const THIRTEEN: seq<int> := [31, 31] + [0, 0, 0, 0, 0, 0, 0, 0, 0, 0] + [2]

  lemma ThirteenAddUp()
    ensures FseSpread.ValidNorm(THIRTEEN, 6) && FseCodec.Shared(THIRTEEN, 6) && !Readable(Packing(THIRTEEN, 6, FseTable.CTable(0, [], []), 0))
  {
    hide Pow2;
    Pow2Values();
    ReadableExactly(Packing(THIRTEEN, 6, FseTable.CTable(0, [], []), 0));
    assert FseSpread.Cum(THIRTEEN, 1) == FseSpread.Cum(THIRTEEN, 0) + 31;
    assert FseSpread.Cum(THIRTEEN, 2) == FseSpread.Cum(THIRTEEN, 1) + 31;
    NCount.CumZeros(THIRTEEN, 2, 10);
    assert FseSpread.Cum(THIRTEEN, 13) == FseSpread.Cum(THIRTEEN, 12) + 2;
  }

  /** One count of a header on concrete bits. */
  lemma PutAt(s: Stack, count: int, remaining: nat, h: nat, value: nat, width: nat) returns (t: Stack)
    requires s.Ok() && -1 <= count < remaining && Pow2(h) <= remaining < 2 * Pow2(h)
    requires value == if count + 1 >= Pow2(h) then count + 2 * Pow2(h) - remaining else count + 1
    requires width == if count + 1 < 2 * Pow2(h) - 1 - remaining then h else h + 1
    ensures t == NCount.PutCount(s, count, remaining) && t.Ok() && t == Stack(s.val + Shl(value, s.len), s.len + width)
  {
    hide Pow2, Shl, Highbit;
    Pow2Next(h);
    HighbitUnique(remaining, h);
    t := NCount.PutCount(s, count, remaining);
  }

  lemma FirstCounts() returns (s: Stack)
    ensures s.Ok() && s == Stack(0xF601, 16) && NCount.Counts(THIRTEEN)
    ensures NCount.Header(THIRTEEN, 6) == NCount.WriteFrom(THIRTEEN, 2, 3, false, s)
  {
    hide Pow2, Shl, NCount.PutCount, NCount.WriteFrom;
    Pow2Values();
    s := NCount.StartWith(6);
    ShlIsMul(1, 0);
    assert s == Stack(1, 4);
    NCount.WriteStep(THIRTEEN, 0, 65, false, s);
    ShlIsMul(32, 4);
    s := PutAt(s, 31, 65, 6, 32, 6);
    NCount.WriteStep(THIRTEEN, 1, 34, false, s);
    ShlIsMul(61, 10);
    s := PutAt(s, 31, 34, 5, 61, 6);
  }

  lemma LastCounts(s2: Stack)
    requires s2.Ok() && s2 == Stack(0xF601, 16) && NCount.Counts(THIRTEEN)
    ensures NCount.WriteFrom(THIRTEEN, 2, 3, false, s2) == Ok(Stack(0x0CFD_F601, 28))
  {
    hide Pow2, Shl, NCount.PutCount, NCount.WriteFrom, NCount.PutZeros;
    Pow2Values();
    NCount.WriteStep(THIRTEEN, 2, 3, false, s2);
    ShlIsMul(1, 16);
    var s := PutAt(s2, 0, 3, 1, 1, 2);
    NineZeros();
    var t := PutNine(s);
    NCount.WriteStep(THIRTEEN, 3, 3, true, s);
    ShlIsMul(3, 26);
    var u := PutAt(t, 2, 3, 1, 3, 2);
    NCount.WriteEnd(THIRTEEN, false, u);
  }

  lemma PutNine(s: Stack) returns (t: Stack)
    requires s.Ok() && s == Stack(0x1_F601, 18)
    ensures t.Ok() && t == NCount.PutZeros(s, 9) && t == Stack(0xFD_F601, 26) && Pow2(26) == 0x400_0000
  {
    hide Pow2, Shl;
    Pow2Values();
    Pow2Add(16, 2);
    Pow2Add(16, 4);
    Pow2Add(16, 6);
    Pow2Add(16, 8);
    Pow2Add(16, 10);
    ShlIsMul(3, 18);
    ShlIsMul(3, 20);
    ShlIsMul(3, 22);
    ShlIsMul(0, 24);
    var a := s.Push(3, 2);
    var b := a.Push(3, 2);
    var c := b.Push(3, 2);
    t := c.Push(0, 2);
    assert NCount.PutZeros(a, 6) == NCount.PutZeros(b, 3) == NCount.PutZeros(c, 0) == t;
  }

  lemma NineZeros()
    ensures NCount.ZeroRun(THIRTEEN, 3) == 9
  {
    hide NCount.ZeroRun;
    var z := NCount.ZeroRun(THIRTEEN, 3);
    assert THIRTEEN[12] == 2;
    assert forall j :: 3 <= j < 12 ==> THIRTEEN[j] == 0;
  }

  /** These four bytes are their header; whatever follows it is refused. */
  lemma ThirteenRefused(rest: seq<Byte>, capacity: nat, r: Result<seq<Byte>>)
    requires Unpacks(r, [0x01, 0xf6, 0xfd, 0x0c] + rest, capacity, MAX_FSE_TABLELOG, READ_STATS_WKSP)
    ensures r == Err(TableLogTooLarge)
  {
    hide NCountReader.Goal, LeNat, NCount.Header, Pow2, FseSpread.Cum, FseCodec.Shared, WkspSize, NCount.WriteFrom;
    var bytes: seq<Byte> := [0x01, 0xf6, 0xfd, 0x0c];
    ThirteenAddUp();
    ReadableExactly(Packing(THIRTEEN, 6, FseTable.CTable(0, [], []), 0));
    var s := FirstCounts();
    LastCounts(s);
    FourBytes(0x01, 0xf6, 0xfd, 0x0c);
    NCountReader.HeaderBack(THIRTEEN, 6, bytes, rest, 256);
  }

  /** `FSE_decompress_wksp_body`. */
  method Unpack(src: seq<Byte>, capacity: nat, maxLog: nat, wkspSize: nat) returns (r: Result<seq<Byte>>)
    requires maxLog <= FseSpread.MAX_TABLELOG
    ensures Unpacks(r, src, capacity, maxLog, wkspSize) && (r.Ok? ==> |r.value| <= capacity)
  {
    hide NCountReader.Goal, LeNat, FseTable.IsDTable, FseDecoder.Decoded, Pow2, FseSpread.Cum, WkspSize;
    if wkspSize < COUNTS_SIZE { return Err(Generic); }
    var ncount := new int[256];
    var info := NCountReader.ReadNCount(ncount, src);
    if info.Err? { return Err(info.error); }
    var Info(maxSymbolValue, tableLog, size) := info.value;
    if tableLog > maxLog { return Err(TableLogTooLarge); }
    if WkspSize(tableLog, maxSymbolValue + 1) > wkspSize { return Err(TableLogTooLarge); }
    var norm := ncount[..maxSymbolValue + 1];
    assert FseSpread.ValidNorm(norm, tableLog);
    var built := FseBuild.BuildDTable(norm, tableLog);
    var dt := built.value;
    FseBuild.DTableSize(dt, norm, tableLog);
    var dst := new Byte[capacity];
    var count := FseDecoder.DecompressUsingDTable(dst, src[size..], dt, dt.fastMode, norm, tableLog);
    r := if count.Err? then Err(count.error) else Ok(dst[..count.value]);
    assert Decodes(r, dt, norm, tableLog, src[size..], capacity);
  }

  /** The space that is left for building the table is then enough as well. */
  lemma BuildRoom(tableLog: nat, maxSV1: nat, wkspSize: nat)
    requires WkspSize(tableLog, maxSV1) <= wkspSize
    ensures 2 * maxSV1 + Pow2(tableLog) + 8 <= wkspSize - COUNTS_SIZE - 4 * (1 + Pow2(tableLog))
  {
    hide Pow2;
  }

  // ----- packing -----

  lemma {:induction false} SumTrim(count: seq<nat>, k: nat, n: nat)
    requires k <= n <= |count| && forall s :: k <= s < n ==> count[s] == 0
    ensures SumOf(count, n) == SumOf(count, k) == SumOf(count[..k], k)
    decreases n
  {
    if k < n { SumTrim(count, k, n - 1); } else { SumOfSame(count, count[..k], k); }
  }

  /** The histogram of `ws`, up to the largest weight in use. */
  ghost predicate Counted(count: seq<nat>, ws: seq<Byte>)
  {
    && 0 < |count| <= HUF_TABLELOG_MAX + 1 && count[|count| - 1] > 0
    && (forall i :: 0 <= i < |ws| ==> ws[i] < |count|)
    && (forall s :: 0 <= s < |count| ==> count[s] == Rank(ws, |ws|, s))
    && SumOf(count, |count|) == |ws|
  }

  /** Counts every weight. */
  method Tally(ws: seq<Byte>) returns (table: array<nat>)
    requires forall i :: 0 <= i < |ws| ==> ws[i] <= HUF_TABLELOG_MAX
    ensures table.Length == HUF_TABLELOG_MAX + 1 && fresh(table)
    ensures forall s :: 0 <= s < table.Length ==> table[s] == Rank(ws, |ws|, s)
    ensures SumOf(table[..], table.Length) == |ws|
  {
    hide SumOf, Rank;
    table := new nat[HUF_TABLELOG_MAX + 1](_ => 0);
    SumOfZero(table[..], table.Length);
    RankStart(ws);
    for i := 0 to |ws|
      invariant forall s :: 0 <= s < table.Length ==> table[s] == Rank(ws, i, s)
      invariant SumOf(table[..], table.Length) == i
    {
      ghost var was := table[..];
      SumOfUpdate(was, table.Length, ws[i], was[ws[i]] + 1);
      RankNext(ws, i);
      table[ws[i]] := table[ws[i]] + 1;
      assert table[..] == was[ws[i] := was[ws[i]] + 1];
    }
  }

  /** The largest element. */
  method Largest(count: seq<nat>) returns (maxCount: nat)
    requires |count| > 0
    ensures (forall s :: 0 <= s < |count| ==> count[s] <= maxCount) && exists s :: 0 <= s < |count| && count[s] == maxCount
  {
    maxCount := 0;
    for s := 0 to |count|
      invariant forall t :: 0 <= t < s ==> count[t] <= maxCount
      invariant if s == 0 then maxCount == 0 else exists t :: 0 <= t < s && count[t] == maxCount
    {
      if count[s] > maxCount { maxCount := count[s]; }
      assert s > 0 || count[s] == maxCount;
    }
  }

  /** `HIST_count_simple`. */
  method Histogram(ws: seq<Byte>) returns (count: seq<nat>, maxCount: nat)
    requires |ws| > 0 && forall i :: 0 <= i < |ws| ==> ws[i] <= HUF_TABLELOG_MAX
    ensures Counted(count, ws)
    ensures (forall s :: 0 <= s < |count| ==> count[s] <= maxCount) && exists s :: 0 <= s < |count| && count[s] == maxCount
  {
    hide SumOf, Rank;
    var table := Tally(ws);
    var maxSymbolValue: nat := HUF_TABLELOG_MAX;
    Occurs(ws, 0);
    while table[maxSymbolValue] == 0
      invariant ws[0] <= maxSymbolValue < table.Length && forall s :: maxSymbolValue < s < table.Length ==> table[s] == 0
      decreases maxSymbolValue
    {
      maxSymbolValue := maxSymbolValue - 1;
    }
    count := table[..maxSymbolValue + 1];
    SumTrim(table[..], maxSymbolValue + 1, table.Length);
    assert count == table[..][..maxSymbolValue + 1];
    forall i | 0 <= i < |ws| ensures ws[i] < |count| {
      Occurs(ws, i);
    }
    maxCount := Largest(count);
  }

  lemma Occurs(ws: seq<Byte>, i: nat)
    requires i < |ws|
    ensures Rank(ws, |ws|, ws[i]) > 0
  {
    RankMono(ws, i, |ws|, ws[i]);
  }

  /** Two different weights occur. */
  lemma TwoWeights(count: seq<nat>, ws: seq<Byte>, maxCount: nat) returns (a: nat, b: nat)
    requires Counted(count, ws) && maxCount < |ws| && forall s :: 0 <= s < |count| ==> count[s] <= maxCount
    ensures a < |count| && b < |count| && a != b && count[a] > 0 && count[b] > 0 && 1 < |ws|
  {
    hide SumOf;
    a := ws[0];
    var i := Other(ws, |ws|, a);
    b := ws[i];
    Occurs(ws, 0);
    Occurs(ws, i);
  }

  /** A weight that is not everywhere leaves room for another. */
  lemma {:induction false} Other(ws: seq<Byte>, n: nat, s: nat) returns (i: nat)
    requires n <= |ws| && Rank(ws, n, s) < n
    ensures i < n && ws[i] != s
    decreases n
  {
    if ws[n - 1] != s { i := n - 1; } else { i := Other(ws, n - 1, s); }
  }

  /** So neither owns the whole table. */
  lemma SharedByTwo(norm: seq<int>, tableLog: nat, a: nat, b: nat)
    requires FseSpread.ValidNorm(norm, tableLog) && a < |norm| && b < |norm| && a != b && norm[a] != 0 && norm[b] != 0
    ensures FseCodec.Shared(norm, tableLog)
  {
    forall s: nat | s < |norm| ensures norm[s] != Pow2(tableLog) {
      var t := if s == a then b else a;
      FseCodec.WeightsFit(norm, if t < s then t else s, if t < s then s else t);
    }
  }

  /** What normalising a histogram of weights gives can be packed with. */
  lemma NormFits(norm: seq<int>, count: seq<nat>, ws: seq<Byte>, tableLog: nat, maxCount: nat)
    requires Counted(count, ws) && maxCount < |ws| && forall s :: 0 <= s < |count| ==> count[s] <= maxCount
    requires Normalize.Histogram(count, |ws|, tableLog) && Normalize.Normalised(norm, count, tableLog, |ws|, false)
    ensures FseSpread.ValidNorm(norm, tableLog) && norm[|norm| - 1] != 0 && FseCodec.Shared(norm, tableLog)
    ensures NCount.Counts(norm) && forall i :: 0 <= i < |ws| ==> ws[i] < |norm| && norm[ws[i]] != 0
  {
    hide SumOf, Normalize.Histogram;
    Normalize.NormalisedIsValid(norm, count, tableLog, |ws|, false);
    assert forall s :: 0 <= s < |norm| ==> Normalize.Fair(norm[s], count[s], Shr(|ws|, tableLog), false);
    var a, b := TwoWeights(count, ws, maxCount);
    SharedByTwo(norm, tableLog, a, b);
    forall i | 0 <= i < |ws| ensures ws[i] < |norm| && norm[ws[i]] != 0 { Occurs(ws, i); }
  }

  lemma SmallLog(srcSize: nat, maxSymbolValue: nat)
    requires srcSize > 1 && 0 < maxSymbolValue <= HUF_TABLELOG_MAX
    ensures Normalize.OptimalTableLog(MAX_FSE_TABLELOG, srcSize, maxSymbolValue, 2) <= MAX_FSE_TABLELOG
    ensures Normalize.MinTableLog(srcSize, maxSymbolValue) <= Normalize.OptimalTableLog(MAX_FSE_TABLELOG, srcSize, maxSymbolValue, 2)
  {
    hide Highbit;
    Pow2Values();
    HighbitBounds(maxSymbolValue);
    if Highbit(maxSymbolValue) >= 4 { Pow2Mono(4, Highbit(maxSymbolValue)); }
  }

  lemma CountedFacts(count: seq<nat>, ws: seq<Byte>, maxCount: nat)
    requires Counted(count, ws) && (forall s :: 0 <= s < |count| ==> count[s] <= maxCount) && maxCount != |ws|
    requires exists s :: 0 <= s < |count| && count[s] == maxCount
    ensures 2 <= |count| <= HUF_TABLELOG_MAX + 1 && SumOf(count, |count|) == |ws| && 1 < |ws| && maxCount < |ws|
    ensures forall s :: 0 <= s < |count| ==> count[s] != |ws|
  {
    hide SumOf;
    assert maxCount <= |ws|;
    var a, b := TwoWeights(count, ws, maxCount);
  }

  /** A header of few symbols fits 16 bytes, */
  lemma HeaderRoom(norm: seq<int>, tableLog: nat, w: Result<nat>, bytes: seq<Byte>)
    requires NCount.Counts(norm) && |norm| <= HUF_TABLELOG_MAX + 1 && tableLog <= MAX_FSE_TABLELOG
    requires NCount.Header(norm, tableLog).Ok? && NCountWriter.Wrote(w, NCount.Header(norm, tableLog), bytes)
    ensures w.Err? ==> w.error == DstSizeTooSmall && |bytes| < 16
    ensures w.Ok? ==> w.value <= 16
  {
    hide NCount.Header;
    NCount.ShortHeader(norm, tableLog);
  }

  /** ... and their stream no more bytes than there are weights, and the slack of the
      writer. */
  lemma StreamRoom(ct: FseTable.CTable, norm: seq<int>, tableLog: nat, ws: seq<Byte>)
    requires FseCodec.Codable(ct, norm, tableLog, ws) && 2 <= |ws| && tableLog <= MAX_FSE_TABLELOG
    ensures FseCodec.EncodeAll(ct, norm, tableLog, ws).len <= 6 * |ws|
  {
    hide Pow2, Shl, FseTable.IsCTable, FseSpread.ValidNorm, FseCodec.EncodeFrom, FseSpread.Cum;
    forall i | 0 <= i < |ws| ensures Shl(FseSpread.Weight(norm[ws[i]]), 6) >= Pow2(tableLog) {
      ShlOne(6);
      ShlMono(1, FseSpread.Weight(norm[ws[i]]), 6);
      Pow2Mono(tableLog, 6);
    }
    FseCodec.LengthByShare(ct, norm, tableLog, ws, 0, 6);
  }

  /** Bytes in which packed weights always fit. */
  function Ample(n: nat): nat { n + 25 }

  /** The header, the table and the stream, one after the other. */
  method PackWith(ws: seq<Byte>, dstSize: nat, norm: seq<int>, tableLog: nat) returns (r: Result<Packed>, ghost p: Packing)
    requires |norm| <= HUF_TABLELOG_MAX + 1
    requires FseSpread.ValidNorm(norm, tableLog) && tableLog <= MAX_FSE_TABLELOG && norm[|norm| - 1] != 0
    requires NCount.Counts(norm) && FseCodec.Shared(norm, tableLog)
    requires forall i :: 0 <= i < |ws| ==> ws[i] < |norm| && norm[ws[i]] != 0
    ensures r.Ok? && r.value.Packed? ==>
              |r.value.bytes| <= dstSize && Packs(r.value.bytes, ws, p) && p.norm == norm && p.tableLog == tableLog
    ensures r.Err? ==> r.error == DstSizeTooSmall && dstSize < 16
    ensures r != Ok(SingleSymbol) && (|ws| > 2 && dstSize >= Ample(|ws|) ==> r.Ok? && r.value.Packed?)
  {
    hide NCount.Header, FseTable.IsCTable, Pow2, FseSpread.Cum, FseCodec.EncodeAll, FseCodec.Shared, Sealed, LeNat, NCountWriter.Room;
    p := Packing([], 0, FseTable.CTable(0, [], []), 0);
    var dst := new Byte[dstSize];
    var hSize := NCountWriter.WriteNCount(dst, norm, tableLog);
    NCountReader.HeaderExists(norm, tableLog);
    HeaderRoom(norm, tableLog, hSize, dst[..]);
    if hSize.Err? { return Err(hSize.error), p; }
    var header := dst[..hSize.value];
    var ct := FseBuild.BuildCTable(norm, tableLog);
    FseTable.TransformAt(ct, norm, tableLog, |norm| - 1);
    var rest := new Byte[dstSize - hSize.value];
    FseCodec.SmallTablesFit(ct, norm, tableLog, ws, rest.Length);
    var cSize := FseCodec.CompressUsingCTable(rest, ws, ct, norm, tableLog);
    if |ws| > 2 { StreamRoom(ct, norm, tableLog, ws); }
    if cSize == 0 { return Ok(NotCompressible), p; }
    var bytes := header + rest[..cSize];
    p := Packing(norm, tableLog, ct, |header|);
    assert bytes[..p.split] == header && bytes[p.split..] == rest[..cSize];
    return Ok(Packed(bytes)), p;
  }

  /** The most frequent weight occurs `m` times. */
  ghost predicate MostFrequent(ws: seq<Byte>, m: nat)
  {
    (forall w: nat :: Rank(ws, |ws|, w) <= m) && exists w: nat :: Rank(ws, |ws|, w) == m
  }

  /** Which of its answers packing gives: not an error with 16 bytes of room, and packed
      weights when some weight repeats but not all are the same, and there is room. */
  ghost predicate Verdict(r: Result<Packed>, ws: seq<Byte>, dstSize: nat, m: nat)
  {
    && MostFrequent(ws, m)
    && if |ws| <= 1 then r == Ok(NotCompressible)
       else if m == |ws| then r == Ok(SingleSymbol)
       else if m == 1 then r == Ok(NotCompressible)
       else
         && r != Ok(SingleSymbol) && (r.Err? ==> r.error == DstSizeTooSmall && dstSize < 16)
         && (dstSize >= Ample(|ws|) ==> r.Ok? && r.value.Packed?)
  }

  /** All that packing promises.  Between 5 and 256 weights are packed with table log 5, which
      the reader can always take. */
  ghost predicate Answers(r: Result<Packed>, ws: seq<Byte>, dstSize: nat, p: Packing)
  {
    && (exists m :: Verdict(r, ws, dstSize, m))
    && (r.Ok? && r.value.Packed? ==>
          |r.value.bytes| <= dstSize && Packs(r.value.bytes, ws, p) && (5 <= |ws| <= 256 ==> p.tableLog == 5 && Readable(p)))
  }

  lemma PackLog(srcSize: nat, maxSymbolValue: nat)
    requires 5 <= srcSize <= 256 && 0 < maxSymbolValue <= HUF_TABLELOG_MAX
    ensures Normalize.OptimalTableLog(MAX_FSE_TABLELOG, srcSize, maxSymbolValue, 2) == 5
  {
    hide Highbit;
    Pow2Values();
    HighbitBounds(maxSymbolValue);
    HighbitBounds(srcSize - 1);
    if Highbit(maxSymbolValue) >= 4 { Pow2Mono(4, Highbit(maxSymbolValue)); }
    if Highbit(srcSize - 1) >= 8 { Pow2Mono(8, Highbit(srcSize - 1)); }
    if Highbit(srcSize - 1) < 2 { Pow2Mono(Highbit(srcSize - 1) + 1, 2); }
  }

  lemma {:induction false} RankAbsent(ws: seq<Byte>, n: nat, w: nat)
    requires n <= |ws| && forall i :: 0 <= i < |ws| ==> ws[i] != w
    ensures Rank(ws, n, w) == 0
  {
    if n > 0 { RankAbsent(ws, n - 1, w); }
  }

  lemma Frequent(count: seq<nat>, ws: seq<Byte>, maxCount: nat)
    requires Counted(count, ws) && forall s :: 0 <= s < |count| ==> count[s] <= maxCount
    requires exists s :: 0 <= s < |count| && count[s] == maxCount
    ensures MostFrequent(ws, maxCount)
  {
    hide SumOf;
    forall w: nat ensures Rank(ws, |ws|, w) <= maxCount {
      if w < |count| { assert count[w] <= maxCount; } else { RankAbsent(ws, |ws|, w); }
    }
  }

  lemma FewFrequent(ws: seq<Byte>) returns (m: nat)
    requires |ws| <= 1
    ensures MostFrequent(ws, m)
  {
    m := |ws|;
    if |ws| == 0 { assert Rank(ws, 0, 0) == 0; } else { assert Rank(ws, 1, ws[0]) == 1; }
  }

  /** `HUF_compressWeights`. */
  method CompressWeights(ws: seq<Byte>, dstSize: nat) returns (r: Result<Packed>, ghost p: Packing)
    requires |ws| < 0x8000_0000 && forall i :: 0 <= i < |ws| ==> ws[i] <= HUF_TABLELOG_MAX
    ensures Answers(r, ws, dstSize, p)
  {
    hide SumOf, Normalize.Apportioned, Normalize.MinTableLog, Normalize.OptimalTableLog, NCount.Header, FseTable.IsCTable,
         Pow2, FseSpread.Cum, FseCodec.EncodeAll, FseCodec.Shared, Normalize.Normalised, Counted, Sealed,
         FseSpread.ValidNorm, LeNat, Readable;
    p := Packing([], 0, FseTable.CTable(0, [], []), 0);
    if |ws| <= 1 {
      ghost var m := FewFrequent(ws);
      r := Ok(NotCompressible);
      assert Verdict(r, ws, dstSize, m);
      return;
    }
    var count, maxCount := Histogram(ws);
    Frequent(count, ws, maxCount);
    if maxCount == |ws| || maxCount == 1 {
      r := Ok(if maxCount == |ws| then SingleSymbol else NotCompressible);
      assert Verdict(r, ws, dstSize, maxCount);
      return;
    }
    CountedFacts(count, ws, maxCount);
    var tableLog := Normalize.OptimalTableLog(MAX_FSE_TABLELOG, |ws|, |count| - 1, 2);
    SmallLog(|ws|, |count| - 1);
    var table := new int[|count|];
    var code := Normalize.NormalizeCount(table, tableLog, count, |ws|, false);
    assert code == Ok(tableLog);  // so `CHECK_F` never returns
    var norm := table[..];
    NormFits(norm, count, ws, tableLog, maxCount);
    Occurs(ws, 0);
    r, p := PackWith(ws, dstSize, norm, tableLog);
    assert Verdict(r, ws, dstSize, maxCount);
    if 5 <= |ws| <= 256 {
      PackLog(|ws|, |count| - 1);
      if r.Ok? && r.value.Packed? { ReadableExactly(p); }
    }
  }

  // ----- the description -----

  /** Two weights to a byte, the first one high. */
  function Nibbles(ws: seq<Byte>): (r: seq<Byte>)
    requires forall i :: 0 <= i < |ws| ==> ws[i] < 16
    ensures |r| == (|ws| + 1) / 2
  {
    seq((|ws| + 1) / 2, k requires 0 <= k < (|ws| + 1) / 2 => PairOf(ws, k))
  }

  function PairOf(ws: seq<Byte>, k: nat): Byte
    requires (forall i :: 0 <= i < |ws| ==> ws[i] < 16) && 2 * k < |ws|
  {
    16 * ws[2 * k] + (if 2 * k + 1 < |ws| then ws[2 * k + 1] else 0)
  }

  function FromNibbles(bytes: seq<Byte>, n: nat): (r: seq<Byte>)
    requires n <= 2 * |bytes|
    ensures |r| == n
  {
    seq(n, i requires 0 <= i < n => NibbleAt(bytes, i))
  }

  function NibbleAt(bytes: seq<Byte>, i: nat): Byte
    requires i < 2 * |bytes|
  {
    if i % 2 == 0 then bytes[i / 2] / 16 else bytes[i / 2] % 16
  }

  lemma NibblesBack(ws: seq<Byte>)
    requires forall i :: 0 <= i < |ws| ==> ws[i] < 16
    ensures FromNibbles(Nibbles(ws), |ws|) == ws
  {
    forall i | 0 <= i < |ws| ensures FromNibbles(Nibbles(ws), |ws|)[i] == ws[i] {
      var k := i / 2;
      assert Nibbles(ws)[k] == PairOf(ws, k);
    }
  }

  /** The two forms of a description of the weights `ws`. */
  ghost predicate Describes(bytes: seq<Byte>, ws: seq<Byte>, p: Packing)
  {
    && |bytes| > 0
    && ((1 <= |ws| <= 128 && (forall i :: 0 <= i < |ws| ==> ws[i] < 16) && bytes[0] == 127 + |ws| && bytes[1..] == Nibbles(ws))
        || (bytes[0] < 128 && |bytes| == 1 + bytes[0] && Packs(bytes[1..], ws, p) && Readable(p)))
  }

  datatype Payload = Payload(weights: seq<Byte>, size: nat)

  /** The weights that a description names, fewer than `hwSize` of them, and its size. */
  ghost predicate Names(u: Result<Payload>, src: seq<Byte>, hwSize: nat)
    requires hwSize > 0
  {
    if |src| == 0 then u == Err(SrcSizeWrong)
    else if src[0] >= 128 then
      var n := src[0] - 127;
      var size := (n + 1) / 2;
      u == if size + 1 > |src| then Err(SrcSizeWrong)
           else if n >= hwSize then Err(CorruptionDetected)
           else Ok(Payload(FromNibbles(src[1..size + 1], n), size + 1))
    else if src[0] + 1 > |src| then u == Err(SrcSizeWrong)
    else
      var packed := src[1..src[0] + 1];
      exists v: Result<seq<Byte>> :: Delivers(v, u, packed, hwSize)
  }

  ghost predicate Delivers(v: Result<seq<Byte>>, u: Result<Payload>, packed: seq<Byte>, hwSize: nat)
    requires hwSize > 0
  {
    Unpacks(v, packed, hwSize - 1, MAX_FSE_TABLELOG, READ_STATS_WKSP) && u == Sized(v, |packed| + 1)
  }

  function Sized(v: Result<seq<Byte>>, size: nat): Result<Payload>
  {
    match v
    case Ok(ws) => Ok(Payload(ws, size))
    case Err(e) => Err(e)
  }

  /** A description names the weights it was made for, whatever follows it. */
  lemma DescribedNamed(bytes: seq<Byte>, ws: seq<Byte>, p: Packing, rest: seq<Byte>, u: Result<Payload>, hwSize: nat)
    requires Describes(bytes, ws, p) && |ws| < hwSize && Names(u, bytes + rest, hwSize)
    ensures u == Ok(Payload(ws, |bytes|))
  {
    hide Packs, Unpacks, Nibbles, FromNibbles;
    var src := bytes + rest;
    assert src[1..|bytes|] == bytes[1..];
    if bytes[0] >= 128 {
      NibblesBack(ws);
    } else {
      var v: Result<seq<Byte>> :| Delivers(v, u, src[1..src[0] + 1], hwSize);
      PackedBack(bytes[1..], ws, p, v, hwSize - 1);
    }
  }

  // ----- writing it -----

  /** `HUF_writeCTable_wksp`: a description of the weights of all symbols but the
      last one. */
  method WriteCTable(ct: seq<nat>, maxSymbolValue: nat, huffLog: nat, maxDstSize: nat, ghost nb: seq<nat>, ghost vals: seq<nat>)
    returns (r: Result<seq<Byte>>, ghost p: Packing, ghost h: Result<Packed>)
    requires huffLog <= HUF_TABLELOG_MAX && UpTo(nb, huffLog) && IsTable(ct, nb, vals)
    requires 1 <= maxSymbolValue && |nb| == maxSymbolValue + 1
    requires forall s :: 0 <= s < |nb| && nb[s] > 0 ==> vals[s] < Pow2(nb[s])
    ensures maxSymbolValue > 255 ==> r == Err(MaxSymbolValueTooLarge)
    ensures maxSymbolValue <= 128 && maxDstSize >= 17 && maxDstSize >= (maxSymbolValue + 1) / 2 + 1 ==> r.Ok?
    ensures maxSymbolValue <= 255 && maxDstSize > 0 ==> AnswersFor(h, FlipAll(nb, huffLog)[..maxSymbolValue], maxDstSize - 1, p)
    ensures r == Err(Generic) <==> 128 < maxSymbolValue <= 255 && maxDstSize > 0 && h.Ok? && !Kept(h.value, maxSymbolValue)
    ensures r.Err? ==> r.error in {MaxSymbolValueTooLarge, DstSizeTooSmall, Generic}
    ensures r == Err(DstSizeTooSmall) ==> maxDstSize < 17 || maxDstSize < (maxSymbolValue + 1) / 2 + 1
    ensures r.Ok? ==> |r.value| <= maxDstSize && maxSymbolValue <= 255
    ensures r.Ok? ==> Described(r.value, FlipAll(nb, huffLog)[..maxSymbolValue], p)
  {
    hide Packs, Pow2, Elt, NbBits, Readable, Verdict;
    p, h := Packing([], 0, FseTable.CTable(0, [], []), 0), Ok(NotCompressible);
    if maxSymbolValue > 255 { return Err(MaxSymbolValueTooLarge), p, h; }
    var ws := Weights(ct, maxSymbolValue, huffLog, nb, vals);
    if maxDstSize < 1 { return Err(DstSizeTooSmall), p, h; }
    var hSize;
    hSize, p := CompressWeights(ws, maxDstSize - 1);
    h := hSize;
    VerdictErrors(h, ws, maxDstSize - 1);
    if hSize.Err? { return Err(hSize.error), p, h; }
    if Kept(hSize.value, maxSymbolValue) {
      var bytes := [|hSize.value.bytes|] + hSize.value.bytes;
      assert bytes[1..] == hSize.value.bytes;
      return Ok(bytes), p, h;
    }
    if maxSymbolValue > 256 - 128 { return Err(Generic), p, h; }
    if (maxSymbolValue + 1) / 2 + 1 > maxDstSize { return Err(DstSizeTooSmall), p, h; }
    var raw := WriteNibbles(ws);
    var bytes := [128 + (maxSymbolValue - 1)] + raw;
    assert bytes[1..] == raw;
    return Ok(bytes), p, h;
  }

  /** The packed form is taken when it is smaller than the nibbles. */
  predicate Kept(packed: Packed, maxSymbolValue: nat)
  {
    packed.Packed? && 1 < |packed.bytes| < maxSymbolValue / 2
  }

  lemma VerdictErrors(h: Result<Packed>, ws: seq<Byte>, dstSize: nat)
    requires exists m :: Verdict(h, ws, dstSize, m)
    ensures h.Err? ==> h.error == DstSizeTooSmall && dstSize < 16
  {}

  /** `Answers`, for weights given as numbers. */
  ghost predicate AnswersFor(h: Result<Packed>, ws: seq<nat>, dstSize: nat, p: Packing)
  {
    (forall i :: 0 <= i < |ws| ==> ws[i] < 256) && Answers(h, ws, dstSize, p)
  }

  /** `Describes`, for weights given as numbers. */
  ghost predicate Described(bytes: seq<Byte>, ws: seq<nat>, p: Packing)
  {
    (forall i :: 0 <= i < |ws| ==> ws[i] < 256) && Describes(bytes, ws, p)
  }

  method Weights(ct: seq<nat>, maxSymbolValue: nat, huffLog: nat, ghost nb: seq<nat>, ghost vals: seq<nat>) returns (ws: seq<Byte>)
    requires huffLog <= HUF_TABLELOG_MAX && UpTo(nb, huffLog) && IsTable(ct, nb, vals) && |nb| == maxSymbolValue + 1
    requires forall s :: 0 <= s < |nb| && nb[s] > 0 ==> vals[s] < Pow2(nb[s])
    ensures ws == FlipAll(nb, huffLog)[..maxSymbolValue] && forall i :: 0 <= i < |ws| ==> ws[i] <= HUF_TABLELOG_MAX
  {
    hide Pow2, Elt, NbBits;
    var bitsToWeight := new Byte[HUF_TABLELOG_MAX + 1](_ => 0);
    for n := 1 to huffLog + 1
      invariant bitsToWeight[0] == 0 && forall b :: 1 <= b < n ==> bitsToWeight[b] == Flip(b, huffLog)
    {
      bitsToWeight[n] := huffLog + 1 - n;
    }
    var huffWeight := new Byte[maxSymbolValue](_ => 0);
    for n := 0 to maxSymbolValue
      invariant bitsToWeight[0] == 0 && forall b :: 1 <= b <= huffLog ==> bitsToWeight[b] == Flip(b, huffLog)
      invariant forall s :: 0 <= s < n ==> huffWeight[s] == Flip(nb[s], huffLog)
    {
      EltLength(vals[n], nb[n]);
      huffWeight[n] := bitsToWeight[NbBits(ct[n])];
    }
    ws := huffWeight[..];
  }

  lemma EltLength(v: nat, nb: nat)
    requires nb <= HUF_TABLELOG_MAX && (nb > 0 ==> v < Pow2(nb))
    ensures NbBits(Elt(v, nb)) == nb
  {
    hide Pow2, Low, Shl;
    if nb > 0 { HufStream.EltParts(v, nb); } else { LengthAlone(0); }
  }

  method WriteNibbles(ws: seq<Byte>) returns (raw: seq<Byte>)
    requires forall i :: 0 <= i < |ws| ==> ws[i] < 16
    ensures raw == Nibbles(ws)
  {
    var huffWeight := ws + [0];
    var op := new Byte[(|ws| + 1) / 2](_ => 0);
    var n := 0;
    while n < |ws|
      invariant n % 2 == 0 && 0 <= n <= |ws| + 1
      invariant forall k :: 0 <= k < n / 2 && k < op.Length ==> op[k] == PairOf(ws, k)
    {
      op[n / 2] := huffWeight[n] * 16 + huffWeight[n + 1];
      n := n + 2;
    }
    raw := op[..];
  }

  // ----- reading it -----

  /** `HUF_readStats`' results; the weights and their counts stay in its tables. */
  datatype Found = Found(size: nat, nbSymbols: nat, tableLog: nat)

  /** What reading the description at the start of `src` gives. */
  ghost predicate Finds(r: Result<Found>, weights: seq<nat>, rankStats: seq<nat>, u: Result<Payload>)
  {
    match u
    case Err(e) => r == Err(e)
    case Ok(p) =>
      match StatsOf(p.weights)
      case Err(e) => r == Err(e)
      case Ok(s) =>
        && r == Ok(Found(p.size, |s.weights|, s.tableLog)) && |s.weights| <= |weights| && weights[..|s.weights|] == s.weights
        && forall w :: 0 <= w < |rankStats| ==> rankStats[w] == Rank(s.weights, |s.weights|, w)
  }

  /** The weights themselves, in either form. */
  method ReadWeights(src: seq<Byte>, hwSize: nat) returns (u: Result<Payload>)
    requires hwSize > 0
    ensures Names(u, src, hwSize) && (u.Ok? ==> |u.value.weights| < hwSize)
  {
    hide Unpacks;
    if |src| == 0 { return Err(SrcSizeWrong); }
    var iSize := src[0];
    if iSize >= 128 {
      var oSize := iSize - 127;
      var size := (oSize + 1) / 2;
      if size + 1 > |src| { return Err(SrcSizeWrong); }
      if oSize >= hwSize { return Err(CorruptionDetected); }
      var ws := ReadNibbles(src[1..size + 1], oSize);
      return Ok(Payload(ws, size + 1));
    }
    if iSize + 1 > |src| { return Err(SrcSizeWrong); }
    var v := Unpack(src[1..iSize + 1], hwSize - 1, MAX_FSE_TABLELOG, READ_STATS_WKSP);
    assert Delivers(v, Sized(v, iSize + 1), src[1..src[0] + 1], hwSize);
    return Sized(v, iSize + 1);
  }

  method ReadNibbles(bytes: seq<Byte>, oSize: nat) returns (ws: seq<Byte>)
    requires |bytes| == (oSize + 1) / 2
    ensures ws == FromNibbles(bytes, oSize)
  {
    var huffWeight := new Byte[oSize + 1](_ => 0);
    var n := 0;
    while n < oSize
      invariant n % 2 == 0 && 0 <= n <= oSize + 1
      invariant forall i :: 0 <= i < n && i < oSize ==> huffWeight[i] == NibbleAt(bytes, i)
    {
      huffWeight[n] := bytes[n / 2] / 16;
      huffWeight[n + 1] := bytes[n / 2] % 16;
      n := n + 2;
    }
    ws := huffWeight[..oSize];
  }

  /** `HUF_readStats_body`. */
  method ReadStats(huffWeight: array<nat>, rankStats: array<nat>, src: seq<Byte>) returns (r: Result<Found>, ghost u: Result<Payload>)
    requires huffWeight != rankStats && huffWeight.Length > 0 && rankStats.Length == HUF_TABLELOG_MAX + 1
    modifies huffWeight, rankStats
    ensures Names(u, src, huffWeight.Length) && Finds(r, huffWeight[..], rankStats[..], u)
  {
    hide Names, WeightTotal, Rank, Pow2, Highbit, Half;
    var read := ReadWeights(src, huffWeight.Length);
    u := read;
    if read.Err? { return Err(read.error), u; }
    var ws := read.value.weights;
    var bad, weightTotal := CollectStats(huffWeight, rankStats, ws);
    if bad || weightTotal == 0 { return Err(CorruptionDetected), u; }
    var tableLog := Highbit(weightTotal) + 1;
    if tableLog > HUF_TABLELOG_MAX { return Err(CorruptionDetected), u; }
    RestPositive(weightTotal);
    var rest := Pow2(tableLog) - weightTotal;
    var verif := Pow2(Highbit(rest));
    var lastWeight := Highbit(rest) + 1;
    if verif != rest { return Err(CorruptionDetected), u; }
    LastFits(weightTotal, rest);
    huffWeight[|ws|] := lastWeight;
    rankStats[lastWeight] := rankStats[lastWeight] + 1;
    RankAppend(ws, lastWeight);
    if rankStats[1] < 2 || rankStats[1] % 2 == 1 { return Err(CorruptionDetected), u; }
    assert huffWeight[..|ws| + 1] == ws + [lastWeight];
    return Ok(Found(read.value.size, |ws| + 1, tableLog)), u;
  }

  lemma LastFits(total: nat, rest: nat)
    requires total > 0 && Highbit(total) + 1 <= HUF_TABLELOG_MAX && 0 < rest && rest + total == Pow2(Highbit(total) + 1)
    ensures Highbit(rest) + 1 <= HUF_TABLELOG_MAX
  {
    hide Pow2, Highbit;
    var h := Highbit(total);
    HighbitBounds(total);
    HighbitBounds(rest);
    Pow2Next(h);
    if Highbit(rest) > h { Pow2Mono(h + 1, Highbit(rest)); }
  }

  lemma RankAppend(ws: seq<nat>, w: nat)
    ensures forall b: int :: Rank(ws + [w], |ws| + 1, b) == Rank(ws, |ws|, b) + (if w == b then 1 else 0)
  {
    forall b: int ensures Rank(ws + [w], |ws|, b) == Rank(ws, |ws|, b) { RankSame(ws + [w], ws, |ws|, b); }
  }

  /** The counts of the weights and their total; `bad` for a weight out of range. */
  method CollectStats(huffWeight: array<nat>, rankStats: array<nat>, ws: seq<Byte>) returns (bad: bool, weightTotal: nat)
    requires huffWeight != rankStats && |ws| < huffWeight.Length && rankStats.Length == HUF_TABLELOG_MAX + 1
    modifies huffWeight, rankStats
    ensures bad <==> exists s :: 0 <= s < |ws| && ws[s] > HUF_TABLELOG_MAX
    ensures !bad ==> weightTotal == WeightTotal(ws, |ws|) && huffWeight[..|ws|] == ws
    ensures !bad ==> forall w :: 0 <= w < rankStats.Length ==> rankStats[w] == Rank(ws, |ws|, w)
  {
    hide Rank, Pow2;
    forall w | 0 <= w < rankStats.Length { rankStats[w] := 0; }
    RankStart(ws);
    weightTotal := 0;
    for n := 0 to |ws|
      invariant forall s :: 0 <= s < n ==> ws[s] <= HUF_TABLELOG_MAX && huffWeight[s] == ws[s]
      invariant forall w :: 0 <= w < rankStats.Length ==> rankStats[w] == Rank(ws, n, w)
      invariant weightTotal == WeightTotal(ws, n)
    {
      if ws[n] > HUF_TABLELOG_MAX { return true, weightTotal; }
      huffWeight[n] := ws[n];
      RankNext(ws, n);
      rankStats[ws[n]] := rankStats[ws[n]] + 1;
      weightTotal := weightTotal + Half(ws[n]);
    }
    bad := false;
  }

  /** `HUF_readCTable`'s results. */
  datatype Table = Table(ct: seq<nat>, tableLog: nat, maxSymbolValue: nat, hasZeroWeights: bool, size: nat)

  /** What reading a table gives: an error, or the canonical codes of a complete set
      of lengths. */
  ghost predicate ReadsTable(r: Result<Table>, u: Result<Payload>, maxSymbolValue: nat)
  {
    match u
    case Err(e) => r == Err(e)
    case Ok(p) =>
      match StatsOf(p.weights)
      case Err(e) => r == Err(e)
      case Ok(s) =>
        if |s.weights| > maxSymbolValue + 1 then r == Err(MaxSymbolValueTooSmall)
        else
          && r.Ok? && UpTo(s.weights, s.tableLog)
          && r.value.tableLog == s.tableLog && r.value.maxSymbolValue == |s.weights| - 1 && r.value.size == p.size
          && (r.value.hasZeroWeights <==> Rank(s.weights, |s.weights|, 0) > 0)
          && IsCanonicalTable(r.value.ct, FlipAll(s.weights, s.tableLog), s.tableLog)
  }

  ghost predicate IsCanonicalTable(elts: seq<nat>, nb: seq<nat>, tableLog: nat)
  {
    Complete(nb, tableLog) && exists vals: seq<nat> :: Canonical(nb, tableLog, vals) && IsTable(elts, nb, vals)
  }

  /** ... from the description at the start of `src`. */
  ghost predicate ReadsDescription(r: Result<Table>, src: seq<Byte>, maxSymbolValue: nat)
  {
    exists u: Result<Payload> :: Names(u, src, 256) && ReadsTable(r, u, maxSymbolValue)
  }

  /** `HUF_readCTable`. */
  method ReadCTable(src: seq<Byte>, maxSymbolValue: nat) returns (r: Result<Table>)
    ensures ReadsDescription(r, src, maxSymbolValue)
  {
    hide Names, StatsOf, Rank, Complete, Canonical, IsTable, Pow2, WeightTotal;
    var huffWeight, rankVal := new nat[256](_ => 0), new nat[HUF_TABLELOG_MAX + 1](_ => 0);
    var stats; ghost var u;
    stats, u := ReadStats(huffWeight, rankVal, src);
    if stats.Err? {
      assert ReadsTable(Err(stats.error), u, maxSymbolValue);
      return Err(stats.error);
    }
    var Found(size, nbSymbols, tableLog) := stats.value;
    var hasZeroWeights := rankVal[0] > 0;
    if nbSymbols > maxSymbolValue + 1 {
      assert ReadsTable(Err(MaxSymbolValueTooSmall), u, maxSymbolValue);
      return Err(MaxSymbolValueTooSmall);
    }
    var weights := huffWeight[..nbSymbols];
    StatsFill(u.value.weights);
    FlippedComplete(weights, tableLog);
    var ct := FillTable(weights, tableLog);
    r := Ok(Table(ct, tableLog, nbSymbols - 1, hasZeroWeights, size));
    assert ReadsTable(r, u, maxSymbolValue);
  }

  /** Lengths from weights, and canonical words from lengths. */
  method FillTable(weights: seq<nat>, tableLog: nat) returns (elts: seq<nat>)
    requires tableLog <= HUF_TABLELOG_MAX && UpTo(weights, tableLog) && Complete(FlipAll(weights, tableLog), tableLog)
    ensures IsCanonicalTable(elts, FlipAll(weights, tableLog), tableLog)
  {
    hide Rank, Complete, Canonical, IsTable, Pow2, FirstValue, NbBits;
    ghost var nb := FlipAll(weights, tableLog);
    var ct := new nat[|weights|];
    for n := 0 to |weights|
      invariant forall s :: 0 <= s < n ==> ct[s] == nb[s]
    {
      var w := weights[n];
      ct[n] := if w != 0 then tableLog + 1 - w else 0;
    }
    assert ct[..] == nb;
    var nbPerRank := new nat[HUF_TABLELOG_MAX + 2](_ => 0);
    RankStart(nb);
    for n := 0 to |weights|
      invariant ct[..] == nb && forall b :: 0 <= b < nbPerRank.Length ==> nbPerRank[b] == Rank(nb, n, b)
    {
      assert ct[n] == ct[..][n] == nb[n];
      LengthAlone(nb[n]);
      nbPerRank[NbBits(ct[n])] := nbPerRank[NbBits(ct[n])] + 1;
      RankNext(nb, n);
    }
    var valPerRank := StartingValues(nbPerRank, tableLog, nb);
    ghost var vals := AssignValues(ct, valPerRank, tableLog, nb);
    elts := ct[..];
    assert Canonical(nb, tableLog, vals) && IsTable(elts, nb, vals);
  }

  /** A table that was written and read back is the same table: the same lengths,
      the same words, the same elements, whatever follows the description. */
  lemma DescriptionRoundTrip(ct: seq<nat>, nb: seq<nat>, vals: seq<nat>, huffLog: nat, bytes: seq<Byte>, p: Packing,
                             rest: seq<Byte>, maxSymbolValue: nat, r: Result<Table>)
    requires Describable(nb, huffLog) && |nb| <= 256 && |nb| <= maxSymbolValue + 1
    requires Canonical(nb, huffLog, vals) && IsTable(ct, nb, vals)
    requires UpTo(nb, huffLog) && Described(bytes, FlipAll(nb, huffLog)[..|nb| - 1], p)
    requires ReadsDescription(r, bytes + rest, maxSymbolValue)
    ensures r.Ok? && r.value.ct == ct && r.value.tableLog == huffLog
    ensures r.value.maxSymbolValue == |nb| - 1 && r.value.size == |bytes|
  {
    hide Names, StatsOf, Rank, Describable, Canonical, IsTable, Describes, Complete;
    DescribableSize(nb, huffLog);
    var ws := FlipAll(nb, huffLog)[..|nb| - 1];
    var u: Result<Payload> :| Names(u, bytes + rest, 256) && ReadsTable(r, u, maxSymbolValue);
    DescribedNamed(bytes, ws, p, rest, u, 256);
    LastWeightFound(nb, huffLog);
    FlipTwice(nb, huffLog);
    var others: seq<nat> :| Canonical(nb, huffLog, others) && IsTable(r.value.ct, nb, others);
    SameTable(nb, huffLog, vals, others, ct, r.value.ct);
  }

  lemma DescribableSize(nb: seq<nat>, huffLog: nat)
    requires Describable(nb, huffLog)
    ensures |nb| >= 2
  {}
}
