/** The two-state FSE stream: `FSE_compress_usingCTable`,
    `FSE_decompress_usingDTable`, and the round trip between them. */
module FseCodec {
  import opened Bits
  import opened BitStream
  import opened FseSpread
  import opened FseTable
  import opened Results

  // ----- one symbol at a time -----

  /** Every symbol of `src` is one that the table can code. */
  ghost predicate Codable(ct: CTable, norm: seq<int>, tableLog: nat, src: seq<Byte>)
  {
    && ValidNorm(norm, tableLog) && IsCTable(ct, norm, tableLog)
    && |ct.symbolTT| == |norm|
    && (forall i :: 0 <= i < |src| ==> src[i] < |norm| && norm[src[i]] != 0)
  }

  /** Two interleaved chains: `cur` is the state that decodes to the next symbol,
      `other` the one that decodes to the symbol after it. */
  datatype Chains = Chains(cur: nat, other: nat, bits: Stack)

  ghost predicate GoodChains(c: Chains, tableLog: nat)
  {
    State(c.cur, tableLog) && State(c.other, tableLog) && c.bits.Ok()
  }

  ghost function First(ct: CTable, norm: seq<int>, tableLog: nat, s: nat): (x: nat)
    requires ValidNorm(norm, tableLog) && IsCTable(ct, norm, tableLog)
    requires s < |norm| == |ct.symbolTT| && norm[s] != 0
    ensures State(x, tableLog)
  {
    FirstInRange(ct, norm, tableLog, s);
    ct.stateTable[FirstIndex(ct, s)]
  }

  ghost function Next(ct: CTable, norm: seq<int>, tableLog: nat, s: nat, x: nat): (y: nat)
    requires ValidNorm(norm, tableLog) && IsCTable(ct, norm, tableLog)
    requires s < |norm| == |ct.symbolTT| && norm[s] != 0 && State(x, tableLog)
    ensures State(y, tableLog)
  {
    StepInRange(ct, norm, tableLog, s, x);
    ct.stateTable[StateIndex(ct, s, x)]
  }

  /** The chains after `src[i..]` was encoded, last symbol first.  A symbol is
      coded in the chain of the symbol two places after it. */
  ghost function EncodeFrom(ct: CTable, norm: seq<int>, tableLog: nat, src: seq<Byte>, i: nat): (c: Chains)
    requires Codable(ct, norm, tableLog, src) && i + 2 <= |src|
    ensures GoodChains(c, tableLog)
    decreases |src| - i
  {
    if i + 2 == |src| then
      Chains(First(ct, norm, tableLog, src[i]), First(ct, norm, tableLog, src[i + 1]), Empty)
    else
      var c := EncodeFrom(ct, norm, tableLog, src, i + 1);
      Chains(Next(ct, norm, tableLog, src[i], c.other), c.cur,
             c.bits.PushLow(c.other, NbBitsOut(ct, src[i], c.other)))
  }

  /** The whole stream: the bits of all symbols, then the state of each chain. */
  ghost function EncodeAll(ct: CTable, norm: seq<int>, tableLog: nat, src: seq<Byte>): (s: Stack)
    requires Codable(ct, norm, tableLog, src) && 2 <= |src|
    ensures s.Ok()
  {
    var c := EncodeFrom(ct, norm, tableLog, src, 0);
    c.bits.PushLow(c.other, tableLog).PushLow(c.cur, tableLog)
  }

  ghost function Prepend(a: seq<Byte>, r: Result<seq<Byte>>): Result<seq<Byte>>
  {
    match r
    case Ok(v) => Ok(a + v)
    case Err(e) => Err(e)
  }

  ghost predicate Decodable(dt: DTable, norm: seq<int>, tableLog: nat)
  {
    && ValidNorm(norm, tableLog) && IsDTable(dt, norm, tableLog)
    && |dt.entries| == Pow2(tableLog)
  }

  ghost function SymbolOf(dt: DTable, norm: seq<int>, tableLog: nat, u: nat): (s: Byte)
    requires Decodable(dt, norm, tableLog) && u < Pow2(tableLog)
  {
    DecodeInRange(dt, norm, tableLog, u, 0);
    dt.entries[u].symbol
  }

  ghost function NextOf(dt: DTable, norm: seq<int>, tableLog: nat, u: nat, low: nat): (v: nat)
    requires Decodable(dt, norm, tableLog) && u < Pow2(tableLog) && low < Pow2(dt.entries[u].nbBits)
    ensures v < Pow2(tableLog)
  {
    DecodeInRange(dt, norm, tableLog, u, low);
    dt.entries[u].newState + low
  }

  /** What decoding yields when `used` of `capacity` bytes are written: symbols
      from the two chains in turn until one asks for bits that are not there;
      then the other chain's last symbol ends the output. */
  ghost function DecodeFrom(dt: DTable, norm: seq<int>, tableLog: nat,
                            cur: nat, other: nat, bits: Stack, used: nat, capacity: nat): Result<seq<Byte>>
    requires Decodable(dt, norm, tableLog)
    requires cur < Pow2(tableLog) && other < Pow2(tableLog) && bits.Ok()
    decreases capacity - used
  {
    if used + 2 > capacity then Err(DstSizeTooSmall)
    else
      var e := dt.entries[cur];
      if e.nbBits > bits.len then
        Ok([SymbolOf(dt, norm, tableLog, cur), SymbolOf(dt, norm, tableLog, other)])
      else
        Prepend([SymbolOf(dt, norm, tableLog, cur)],
                DecodeFrom(dt, norm, tableLog, other, NextOf(dt, norm, tableLog, cur, bits.Top(e.nbBits)),
                           bits.Pop(e.nbBits), used + 1, capacity))
  }

  ghost function DecodeStack(dt: DTable, norm: seq<int>, tableLog: nat, s: Stack, capacity: nat): Result<seq<Byte>>
    requires Decodable(dt, norm, tableLog) && s.Ok()
  {
    if s.len < 2 * tableLog then Err(CorruptionDetected)
    else DecodeFrom(dt, norm, tableLog, s.Top(tableLog), s.Pop(tableLog).Top(tableLog),
                    s.Pop(tableLog).Pop(tableLog), 0, capacity)
  }

  // ----- the round trip on stacks -----

  /** No symbol owns the whole table, that is, at least two symbols are in use. */
  ghost predicate Shared(norm: seq<int>, tableLog: nat)
  {
    forall s :: 0 <= s < |norm| ==> norm[s] != Pow2(tableLog)
  }

  lemma EncodeStep(ct: CTable, norm: seq<int>, tableLog: nat, src: seq<Byte>, i: nat)
    requires Codable(ct, norm, tableLog, src) && i + 2 < |src|
    ensures var c := EncodeFrom(ct, norm, tableLog, src, i + 1);
            EncodeFrom(ct, norm, tableLog, src, i) ==
            Chains(Next(ct, norm, tableLog, src[i], c.other), c.cur,
                   c.bits.PushLow(c.other, NbBitsOut(ct, src[i], c.other)))
  {
    hide Pow2, IsCTable, ValidNorm, NbBitsOut, First, Next;
  }

  lemma EncodeLast(ct: CTable, norm: seq<int>, tableLog: nat, src: seq<Byte>, i: nat)
    requires Codable(ct, norm, tableLog, src) && i + 2 == |src|
    ensures EncodeFrom(ct, norm, tableLog, src, i) ==
            Chains(First(ct, norm, tableLog, src[i]), First(ct, norm, tableLog, src[i + 1]), Empty)
  {
    hide Pow2, IsCTable, ValidNorm, NbBitsOut, First, Next;
  }

  /** One symbol that finds its bits: also past the end of the output, where both
      sides fail. */
  lemma DecodeStep(dt: DTable, norm: seq<int>, tableLog: nat,
                   cur: nat, other: nat, bits: Stack, used: nat, capacity: nat)
    requires Decodable(dt, norm, tableLog)
    requires cur < Pow2(tableLog) && other < Pow2(tableLog) && bits.Ok()
    requires dt.entries[cur].nbBits <= bits.len
    ensures var nb := dt.entries[cur].nbBits;
            DecodeFrom(dt, norm, tableLog, cur, other, bits, used, capacity) ==
            Prepend([SymbolOf(dt, norm, tableLog, cur)],
                    DecodeFrom(dt, norm, tableLog, other, NextOf(dt, norm, tableLog, cur, bits.Top(nb)),
                               bits.Pop(nb), used + 1, capacity))
  {
    hide Pow2, IsDTable, ValidNorm, SymbolOf, NextOf;
  }

  lemma DecodeLast(dt: DTable, norm: seq<int>, tableLog: nat,
                   cur: nat, other: nat, bits: Stack, used: nat, capacity: nat)
    requires Decodable(dt, norm, tableLog)
    requires cur < Pow2(tableLog) && other < Pow2(tableLog) && bits.Ok()
    requires dt.entries[cur].nbBits > bits.len && used + 2 <= capacity
    ensures DecodeFrom(dt, norm, tableLog, cur, other, bits, used, capacity) ==
            Ok([SymbolOf(dt, norm, tableLog, cur), SymbolOf(dt, norm, tableLog, other)])
  {
    hide Pow2, IsDTable, ValidNorm, SymbolOf, NextOf;
  }

  /** The encoder's step and the decoder's step are inverse, bits included. */
  lemma NextUndone(ct: CTable, dt: DTable, norm: seq<int>, tableLog: nat, s: Byte, x: nat, bits: Stack)
    requires ValidNorm(norm, tableLog) && IsCTable(ct, norm, tableLog) && Decodable(dt, norm, tableLog)
    requires s < |norm| == |ct.symbolTT| && norm[s] != 0 && State(x, tableLog) && bits.Ok()
    ensures var y, pushed := Next(ct, norm, tableLog, s, x) - Pow2(tableLog), bits.PushLow(x, NbBitsOut(ct, s, x));
            && SymbolOf(dt, norm, tableLog, y) == s
            && dt.entries[y].nbBits <= pushed.len
            && NextOf(dt, norm, tableLog, y, pushed.Top(dt.entries[y].nbBits)) == x - Pow2(tableLog)
            && pushed.Pop(dt.entries[y].nbBits) == bits
  {
    hide Pow2, Low, Shr, Shl, IsCTable, IsDTable, ValidNorm, NbBitsOut, StateIndex;
    StepInverse(ct, dt, norm, tableLog, s, x);
    var nb := NbBitsOut(ct, s, x);
    LowBound(x, nb);
    PushPop(bits, Low(x, nb), nb);
  }

  lemma FirstEnds(ct: CTable, dt: DTable, norm: seq<int>, tableLog: nat, s: Byte)
    requires ValidNorm(norm, tableLog) && IsCTable(ct, norm, tableLog) && Decodable(dt, norm, tableLog)
    requires s < |norm| == |ct.symbolTT| && norm[s] != 0 && Shared(norm, tableLog)
    ensures var y := First(ct, norm, tableLog, s) - Pow2(tableLog);
            SymbolOf(dt, norm, tableLog, y) == s && dt.entries[y].nbBits > 0
  {
    hide Pow2, IsCTable, IsDTable, ValidNorm, FirstIndex, FirstBits;
    FirstState(ct, dt, norm, tableLog, s);
  }

  /** Decoding from where encoding stood before `src[i]` gives `src[i..]`: each
      step undoes one, and the two starting states run out of bits. */
  lemma {:induction false} DecodeEncoded(ct: CTable, dt: DTable, norm: seq<int>, tableLog: nat,
                                         src: seq<Byte>, i: nat, capacity: nat)
    requires Codable(ct, norm, tableLog, src) && Decodable(dt, norm, tableLog) && Shared(norm, tableLog)
    requires i + 2 <= |src| <= capacity
    ensures var c := EncodeFrom(ct, norm, tableLog, src, i);
            DecodeFrom(dt, norm, tableLog, c.cur - Pow2(tableLog), c.other - Pow2(tableLog), c.bits, i, capacity)
            == Ok(src[i..])
    decreases |src| - i
  {
    hide Pow2, Low, Shr, Shl, IsCTable, IsDTable, ValidNorm, NbBitsOut, StateIndex, EncodeFrom, DecodeFrom,
         First, Next, SymbolOf, NextOf, Shared;
    var c := EncodeFrom(ct, norm, tableLog, src, i);
    var u, v := c.cur - Pow2(tableLog), c.other - Pow2(tableLog);
    if i + 2 == |src| {
      EncodeLast(ct, norm, tableLog, src, i);
      FirstEnds(ct, dt, norm, tableLog, src[i]);
      FirstEnds(ct, dt, norm, tableLog, src[i + 1]);
      DecodeLast(dt, norm, tableLog, u, v, c.bits, i, capacity);
      assert src[i..] == [src[i], src[i + 1]];
    } else {
      DecodeEncoded(ct, dt, norm, tableLog, src, i + 1, capacity);
      EncodeStep(ct, norm, tableLog, src, i);
      var d := EncodeFrom(ct, norm, tableLog, src, i + 1);
      NextUndone(ct, dt, norm, tableLog, src[i], d.other, d.bits);
      DecodeStep(dt, norm, tableLog, u, v, c.bits, i, capacity);
      assert src[i..] == [src[i]] + src[i + 1..];
    }
  }

  /** Every sequence of more than one codable symbols comes back whole. */
  lemma RoundTrip(ct: CTable, dt: DTable, norm: seq<int>, tableLog: nat, src: seq<Byte>, capacity: nat)
    requires Codable(ct, norm, tableLog, src) && Decodable(dt, norm, tableLog) && Shared(norm, tableLog)
    requires 2 <= |src| <= capacity
    ensures DecodeStack(dt, norm, tableLog, EncodeAll(ct, norm, tableLog, src), capacity) == Ok(src)
  {
    hide Pow2, Low, Shr, Shl, IsCTable, IsDTable, ValidNorm, EncodeFrom, DecodeFrom, Shared;
    var c := EncodeFrom(ct, norm, tableLog, src, 0);
    DecodeEncoded(ct, dt, norm, tableLog, src, 0, capacity);
    PushLowPop(c.bits, c.other, tableLog);
    PushLowPop(c.bits.PushLow(c.other, tableLog), c.cur, tableLog);
    assert src[0..] == src;
  }

  lemma PushLowPop(bits: Stack, x: nat, tableLog: nat)
    requires bits.Ok() && State(x, tableLog)
    ensures bits.PushLow(x, tableLog).Top(tableLog) == x - Pow2(tableLog)
    ensures bits.PushLow(x, tableLog).Pop(tableLog) == bits
  {
    hide Pow2, Low, Shr, Shl;
    StateLow(x, tableLog);
    PushPop(bits, Low(x, tableLog), tableLog);
  }

  lemma StateLow(x: nat, tableLog: nat)
    requires State(x, tableLog)
    ensures Low(x, tableLog) == x - Pow2(tableLog) < Pow2(tableLog)
  {
    hide Pow2, Low, Shl;
    ShlOne(tableLog);
    Join(x - Pow2(tableLog), 1, tableLog);
  }

  // ----- which state is which -----

  /** The one state names `src[i]` and leads, with the bits it asks for, to the state
      that names `src[i + 2]`; the other names `src[i + 1]`. */
  lemma {:induction false} ChainsName(ct: CTable, dt: DTable, norm: seq<int>, tableLog: nat, src: seq<Byte>, i: nat)
    requires Codable(ct, norm, tableLog, src) && Decodable(dt, norm, tableLog) && Shared(norm, tableLog) && i + 2 <= |src|
    ensures var c := EncodeFrom(ct, norm, tableLog, src, i); var u := c.cur - Pow2(tableLog);
      && SymbolOf(dt, norm, tableLog, u) == src[i] && SymbolOf(dt, norm, tableLog, c.other - Pow2(tableLog)) == src[i + 1]
      && (i + 2 < |src| ==>
            && dt.entries[u].nbBits <= c.bits.len
            && SymbolOf(dt, norm, tableLog, NextOf(dt, norm, tableLog, u, c.bits.Top(dt.entries[u].nbBits))) == src[i + 2])
    decreases |src| - i
  {
    hide Pow2, Low, Shr, Shl, IsCTable, IsDTable, ValidNorm, NbBitsOut, StateIndex, EncodeFrom,
         First, Next, SymbolOf, NextOf, Shared;
    if i + 2 == |src| {
      EncodeLast(ct, norm, tableLog, src, i);
      FirstEnds(ct, dt, norm, tableLog, src[i]);
      FirstEnds(ct, dt, norm, tableLog, src[i + 1]);
    } else {
      ChainsName(ct, dt, norm, tableLog, src, i + 1);
      EncodeStep(ct, norm, tableLog, src, i);
      var d := EncodeFrom(ct, norm, tableLog, src, i + 1);
      NextUndone(ct, dt, norm, tableLog, src[i], d.other, d.bits);
    }
  }

  /** What a reader meets first: the state of the first symbol, then that of the second,
      then the bits that lead from the first to the third. */
  lemma StreamStarts(ct: CTable, dt: DTable, norm: seq<int>, tableLog: nat, src: seq<Byte>)
    requires Codable(ct, norm, tableLog, src) && Decodable(dt, norm, tableLog) && Shared(norm, tableLog) && 2 <= |src|
    ensures var s := EncodeAll(ct, norm, tableLog, src);
      && s.len >= 2 * tableLog
      && var u, v, rest := s.Top(tableLog), s.Pop(tableLog).Top(tableLog), s.Pop(tableLog).Pop(tableLog);
      && SymbolOf(dt, norm, tableLog, u) == src[0] && SymbolOf(dt, norm, tableLog, v) == src[1]
      && (2 < |src| ==>
            && dt.entries[u].nbBits <= rest.len
            && SymbolOf(dt, norm, tableLog, NextOf(dt, norm, tableLog, u, rest.Top(dt.entries[u].nbBits))) == src[2])
  {
    hide Pow2, Low, Shr, Shl, IsCTable, IsDTable, ValidNorm, EncodeFrom, SymbolOf, NextOf, Shared;
    var c := EncodeFrom(ct, norm, tableLog, src, 0);
    ChainsName(ct, dt, norm, tableLog, src, 0);
    PushLowPop(c.bits, c.other, tableLog);
    PushLowPop(c.bits.PushLow(c.other, tableLog), c.cur, tableLog);
  }

  // ----- when one symbol owns the table -----

  lemma SoleEntry(dt: DTable, norm: seq<int>, tableLog: nat, s: nat, u: nat)
    requires Decodable(dt, norm, tableLog) && s < |norm| && norm[s] == Pow2(tableLog)
    requires u < Pow2(tableLog)
    ensures dt.entries[u].nbBits == 0
  {
    hide Pow2, IsDTable, Highbit, Cum;
    var x := EntryAt(dt, norm, tableLog, u);
    var t := dt.entries[u].symbol;
    if t != s { WeightsFit(norm, if t < s then t else s, if t < s then s else t); }
    Pow2Next(tableLog);
    HighbitUnique(x, tableLog);
  }

  lemma WeightsFit(norm: seq<int>, s: nat, t: nat)
    requires s < t < |norm|
    ensures Weight(norm[s]) + Weight(norm[t]) <= Cum(norm, |norm|)
  {
    CumMono(norm, s + 1, t);
    CumMono(norm, t + 1, |norm|);
  }

  /** A table with a single symbol never ends the stream, whatever the bits: the
      round trip needs `Shared`, and not only for the proof. */
  lemma {:induction false} SoleSymbolNeverEnds(dt: DTable, norm: seq<int>, tableLog: nat,
                                               cur: nat, other: nat, bits: Stack, used: nat, capacity: nat)
    requires Decodable(dt, norm, tableLog) && !Shared(norm, tableLog)
    requires cur < Pow2(tableLog) && other < Pow2(tableLog) && bits.Ok()
    ensures DecodeFrom(dt, norm, tableLog, cur, other, bits, used, capacity) == Err(DstSizeTooSmall)
    decreases capacity - used
  {
    hide Pow2, IsDTable, ValidNorm;
    if used + 2 <= capacity {
      var s :| 0 <= s < |norm| && norm[s] == Pow2(tableLog);
      SoleEntry(dt, norm, tableLog, s, cur);
      SoleSymbolNeverEnds(dt, norm, tableLog, other, NextOf(dt, norm, tableLog, cur, bits.Top(0)),
                          bits.Pop(0), used + 1, capacity);
    }
  }

  /** So a stream comes back exactly when no symbol owns the whole table. */
  lemma RoundTripExactly(ct: CTable, dt: DTable, norm: seq<int>, tableLog: nat, src: seq<Byte>, capacity: nat)
    requires Codable(ct, norm, tableLog, src) && Decodable(dt, norm, tableLog)
    requires 2 <= |src| <= capacity
    ensures DecodeStack(dt, norm, tableLog, EncodeAll(ct, norm, tableLog, src), capacity) == Ok(src)
            <==> Shared(norm, tableLog)
  {
    hide Pow2, IsCTable, IsDTable, ValidNorm, EncodeFrom, DecodeFrom, Shared;
    if Shared(norm, tableLog) {
      RoundTrip(ct, dt, norm, tableLog, src, capacity);
    } else {
      var s := EncodeAll(ct, norm, tableLog, src);
      if s.len >= 2 * tableLog {
        SoleSymbolNeverEnds(dt, norm, tableLog, s.Top(tableLog), s.Pop(tableLog).Top(tableLog),
                            s.Pop(tableLog).Pop(tableLog), 0, capacity);
      }
    }
  }

  // ----- the size of the stream -----

  lemma {:induction false} LengthGrows(ct: CTable, norm: seq<int>, tableLog: nat, src: seq<Byte>, i: nat)
    requires Codable(ct, norm, tableLog, src) && i + 2 <= |src|
    ensures EncodeFrom(ct, norm, tableLog, src, i).bits.len <= EncodeFrom(ct, norm, tableLog, src, 0).bits.len
    decreases i
  {
    hide Pow2, IsCTable, ValidNorm, NbBitsOut, First, Next, EncodeFrom;
    if i > 0 {
      EncodeStep(ct, norm, tableLog, src, i - 1);
      LengthGrows(ct, norm, tableLog, src, i - 1);
    }
  }

  /** Every symbol of `src` has at least one cell in `2^k`, */
  ghost predicate AllCommon(norm: seq<int>, tableLog: nat, src: seq<Byte>, k: nat)
  {
    forall i :: 0 <= i < |src| ==> src[i] < |norm| && Shl(Weight(norm[src[i]]), k) >= Pow2(tableLog)
  }

  /** ... or at most one. */
  ghost predicate AllRare(norm: seq<int>, tableLog: nat, src: seq<Byte>, k: nat)
  {
    forall i :: 0 <= i < |src| ==> src[i] < |norm| && Shl(Weight(norm[src[i]]), k) <= Pow2(tableLog)
  }

  lemma {:induction false} ShlMore(x: nat, a: nat, b: nat)
    requires a <= b
    ensures Shl(x, a) <= Shl(x, b)
    decreases b
  {
    if a < b { ShlMore(x, a, b - 1); }
  }

  /** The bits that a step sheds, by the share of the symbol. */
  lemma StepCost(ct: CTable, norm: seq<int>, tableLog: nat, s: nat, x: nat, k: nat)
    requires ValidNorm(norm, tableLog) && IsCTable(ct, norm, tableLog)
    requires s < |norm| == |ct.symbolTT| && norm[s] != 0 && State(x, tableLog)
    ensures Shl(Weight(norm[s]), k) >= Pow2(tableLog) ==> NbBitsOut(ct, s, x) <= k
    ensures Shl(Weight(norm[s]), k) <= Pow2(tableLog) ==> NbBitsOut(ct, s, x) >= k
  {
    hide Shl, Shr, Pow2, IsCTable, ValidNorm, NbBitsOut, StateIndex;
    var w, nb := Weight(norm[s]), NbBitsOut(ct, s, x);
    StepTarget(ct, norm, tableLog, s, x);
    ShrVersusShl(x, w, nb);
    ShrVersusShl(x, 2 * w, nb);
    ShlShl(w, 1, nb);
    ShlOnce(w);
    ShlNext(w, k);
    if nb > k { ShlMore(w, k + 1, nb); }
    ShlNext(w, nb);
    ShlDouble(w, nb);
    if nb < k { ShlMore(w, nb + 1, k); }
  }

  lemma ShlOnce(x: nat)
    ensures Shl(x, 1) == 2 * x
  {}

  lemma ShlDouble(x: nat, n: nat)
    ensures Shl(2 * x, n) == Shl(x, n + 1)
  {
    hide Shl;
    ShlOnce(x);
    ShlShl(x, 1, n);
  }

  /** So a stream has at most `k` bits a symbol when every symbol is that common, and at
      least `k` when every one is that rare. */
  lemma {:induction false} LengthByShare(ct: CTable, norm: seq<int>, tableLog: nat, src: seq<Byte>, i: nat, k: nat)
    requires Codable(ct, norm, tableLog, src) && i + 2 <= |src|
    ensures var len := EncodeFrom(ct, norm, tableLog, src, i).bits.len;
      && (AllCommon(norm, tableLog, src, k) ==> len <= (|src| - 2 - i) * k)
      && (AllRare(norm, tableLog, src, k) ==> len >= (|src| - 2 - i) * k)
    decreases |src| - i
  {
    hide Pow2, Shl, IsCTable, ValidNorm, NbBitsOut, First, Next, EncodeFrom;
    if i + 2 == |src| {
      EncodeLast(ct, norm, tableLog, src, i);
    } else {
      LengthByShare(ct, norm, tableLog, src, i + 1, k);
      EncodeStep(ct, norm, tableLog, src, i);
      var c := EncodeFrom(ct, norm, tableLog, src, i + 1);
      StepCost(ct, norm, tableLog, src[i], c.other, k);
      OneMore(|src| - 2 - i, k);
    }
  }

  lemma OneMore(n: nat, k: nat)
    requires n > 0
    ensures n * k == (n - 1) * k + k
  {}

  /** A symbol of one cell costs the whole table log every time. */
  lemma SingleCellLength(ct: CTable, norm: seq<int>, tableLog: nat, src: seq<Byte>, i: nat)
    requires Codable(ct, norm, tableLog, src) && i + 2 <= |src|
    requires forall j :: 0 <= j < |src| ==> Weight(norm[src[j]]) == 1
    ensures EncodeFrom(ct, norm, tableLog, src, i).bits.len == (|src| - 2 - i) * tableLog
  {
    hide Pow2, Shl, IsCTable, ValidNorm, EncodeFrom, Weight;
    ShlOne(tableLog);
    LengthByShare(ct, norm, tableLog, src, i, tableLog);
  }

  /** `FSE_BLOCKBOUND`: from this size on the writer skips its bounds checks. */
  function BlockBound(size: nat): nat
  {
    size + size / 128 + 4 + 8
  }

  /** The unchecked flushes stay inside the buffer: all but those of the two states. */
  ghost predicate FitsUnchecked(ct: CTable, norm: seq<int>, tableLog: nat, src: seq<Byte>, size: nat)
  {
    Codable(ct, norm, tableLog, src) && 2 <= |src| && size >= BlockBound(|src|) ==>
      EncodeFrom(ct, norm, tableLog, src, 0).bits.len / 8 <= size - 8
  }

  /** They do whenever every symbol has at least one cell in 256. */
  lemma CommonSymbolsFit(ct: CTable, norm: seq<int>, tableLog: nat, src: seq<Byte>, size: nat)
    requires AllCommon(norm, tableLog, src, 8)
    ensures FitsUnchecked(ct, norm, tableLog, src, size)
  {
    hide Pow2, Shl, IsCTable, ValidNorm, EncodeFrom;
    if Codable(ct, norm, tableLog, src) && 2 <= |src| {
      LengthByShare(ct, norm, tableLog, src, 0, 8);
    }
  }

  /** With tables of up to 256 cells that is every symbol in use. */
  lemma SmallTablesFit(ct: CTable, norm: seq<int>, tableLog: nat, src: seq<Byte>, size: nat)
    requires tableLog <= 8
    ensures FitsUnchecked(ct, norm, tableLog, src, size)
  {
    hide Pow2, Shl, IsCTable, ValidNorm, EncodeFrom;
    if Codable(ct, norm, tableLog, src) {
      forall i | 0 <= i < |src| ensures Shl(Weight(norm[src[i]]), 8) >= Pow2(tableLog) {
        ShlOne(8);
        ShlMono(1, Weight(norm[src[i]]), 8);
        Pow2Mono(tableLog, 8);
      }
      CommonSymbolsFit(ct, norm, tableLog, src, size);
    }
  }

  /** And they do not, at the bound itself, for 64 and more symbols that have at most one
      cell in 512 each. */
  lemma RareSymbolsOverflow(ct: CTable, norm: seq<int>, tableLog: nat, src: seq<Byte>)
    requires Codable(ct, norm, tableLog, src) && |src| >= 64 && AllRare(norm, tableLog, src, 9)
    ensures !FitsUnchecked(ct, norm, tableLog, src, BlockBound(|src|))
  {
    hide Pow2, Shl, IsCTable, ValidNorm, EncodeFrom;
    LengthByShare(ct, norm, tableLog, src, 0, 9);
  }

  // ----- encoder -----

  /** The counts of a single symbol, the last one, that owns a table of one cell. */
  ghost predicate Sole(norm: seq<int>)
  {
    0 < |norm| <= MAX_SYMBOL_VALUE + 1 && forall s :: 0 <= s < |norm| ==> norm[s] == if s == |norm| - 1 then 1 else 0
  }

  /** What `FSE_buildCTable_rle` leaves for it: one state, which stays at 0. */
  ghost predicate IsRleCTable(ct: CTable, norm: seq<int>)
  {
    && Sole(norm) && ct.tableLog == 0 && |ct.stateTable| > 0 && ct.stateTable[0] == 0
    && |ct.symbolTT| == |norm| && ct.symbolTT[|norm| - 1] == Transform(0, 0)
  }

  /** A table of either kind. */
  ghost predicate Encodes(ct: CTable, norm: seq<int>, tableLog: nat)
  {
    && |ct.symbolTT| == |norm|
    && if tableLog == 0 then IsRleCTable(ct, norm) else ValidNorm(norm, tableLog) && IsCTable(ct, norm, tableLog)
  }

  ghost predicate StateOf(x: nat, tableLog: nat) { if tableLog == 0 then x == 0 else State(x, tableLog) }

  ghost function Start(ct: CTable, norm: seq<int>, tableLog: nat, s: nat): (x: nat)
    requires Encodes(ct, norm, tableLog) && s < |norm| && norm[s] != 0
    ensures StateOf(x, tableLog)
  {
    if tableLog == 0 then 0 else First(ct, norm, tableLog, s)
  }

  ghost function Move(ct: CTable, norm: seq<int>, tableLog: nat, s: nat, x: nat): (y: nat)
    requires Encodes(ct, norm, tableLog) && s < |norm| && norm[s] != 0 && StateOf(x, tableLog)
    ensures StateOf(y, tableLog)
  {
    if tableLog == 0 then 0 else Next(ct, norm, tableLog, s, x)
  }

  /** A table of one symbol starts in its only state, sheds nothing, and stays there. */
  lemma RleStep(ct: CTable, norm: seq<int>, s: nat)
    requires IsRleCTable(ct, norm) && s < |norm| && norm[s] != 0
    ensures FirstBits(ct, s) == 0 && ct.symbolTT[s] == Transform(0, 0) && Shr(0, 0) == 0
    ensures NbBitsOut(ct, s, 0) == 0 && StateIndex(ct, s, 0) == 0
  {}

  /** `FSE_CState_t`. */
  class CState {
    var value: nat
    const ct: CTable
    ghost const norm: seq<int>
    ghost const tableLog: nat

    ghost predicate Valid()
      reads this
    {
      Encodes(ct, norm, tableLog) && StateOf(value, tableLog)
    }

    /** `FSE_initCState2`: starts a chain at the cheapest state of its last symbol. */
    constructor (ct: CTable, ghost norm: seq<int>, ghost tableLog: nat, symbol: Byte)
      requires Encodes(ct, norm, tableLog) && symbol < |norm| && norm[symbol] != 0
      ensures Valid() && this.ct == ct && this.norm == norm && this.tableLog == tableLog
      ensures value == Start(ct, norm, tableLog, symbol)
    {
      hide IsCTable, ValidNorm, IsRleCTable, Shr;
      if tableLog == 0 {
        RleStep(ct, norm, symbol);
      } else {
        FirstTarget(ct, norm, tableLog, symbol);
        FirstInRange(ct, norm, tableLog, symbol);
      }
      RleTable(ct, norm, tableLog);
      this.ct := ct;
      this.norm := norm;
      this.tableLog := tableLog;
      var symbolTT := ct.symbolTT[symbol];
      var nbBitsOut := (symbolTT.deltaNbBits + 0x8000) / 0x1_0000;
      var start := nbBitsOut * 0x1_0000 - symbolTT.deltaNbBits;
      value := ct.stateTable[Shr(start, nbBitsOut) + symbolTT.deltaFindState];
    }

    /** `FSE_encodeSymbol`. */
    method EncodeSymbol(bitC: CStream, symbol: Byte)
      requires Valid() && bitC.Valid()
      requires symbol < |norm| && norm[symbol] != 0
      requires bitC.bitPos + tableLog < 64
      modifies this, bitC
      ensures Valid() && bitC.Valid()
      ensures value == Move(ct, norm, tableLog, symbol, old(value))
      ensures bitC.stack == old(bitC.stack).PushLow(old(value), NbBitsOut(ct, symbol, old(value)))
      ensures bitC.bitPos <= old(bitC.bitPos) + tableLog
    {
      hide IsCTable, ValidNorm, IsRleCTable, Pow2, Shr, Low, Shl;
      if tableLog == 0 { RleStep(ct, norm, symbol); } else { StepInRange(ct, norm, tableLog, symbol, value); }
      RleTable(ct, norm, tableLog);
      var symbolTT := ct.symbolTT[symbol];
      var nbBitsOut := (value + symbolTT.deltaNbBits) / 0x1_0000;
      bitC.AddBits(value, nbBitsOut);
      value := ct.stateTable[Shr(value, nbBitsOut) + symbolTT.deltaFindState];
    }

    /** `FSE_flushCState`. */
    method FlushState(bitC: CStream)
      requires Valid() && bitC.Valid() && bitC.bitPos < 8
      modifies bitC, bitC.dst
      ensures bitC.Valid() && bitC.bitPos < 8
      ensures bitC.stack == old(bitC.stack).PushLow(value, tableLog)
    {
      hide Pow2, Shr, Low, Shl, Cum;
      bitC.AddBits(value, ct.tableLog);
      bitC.FlushBits();
    }
  }

  lemma RleTable(ct: CTable, norm: seq<int>, tableLog: nat)
    requires Encodes(ct, norm, tableLog)
    ensures tableLog == 0 ==> |ct.stateTable| > 0 && ct.stateTable[0] == 0
    ensures ct.tableLog == tableLog
  {}

  /** The two states and the stream stand where `EncodeFrom` does before `src[i]`, and
      `next` is the state that takes the symbol before that. */
  ghost predicate Stands(next: CState, last: CState, bitC: CStream, ct: CTable, norm: seq<int>, tableLog: nat,
                         src: seq<Byte>, i: nat)
    reads next, last, bitC, bitC.dst
    requires Codable(ct, norm, tableLog, src) && i + 2 <= |src|
  {
    var c := EncodeFrom(ct, norm, tableLog, src, i);
    && next.Valid() && last.Valid() && bitC.Valid()
    && next.ct == last.ct == ct && next.norm == last.norm == norm && next.tableLog == last.tableLog == tableLog
    && next.value == c.other && last.value == c.cur && bitC.stack == c.bits
  }

  /** `FSE_encodeSymbol(&bitC, &next, *--ip)`: the states take turns. */
  method EncodeIn(next: CState, last: CState, bitC: CStream, ghost ct: CTable, ghost norm: seq<int>,
                  ghost tableLog: nat, src: seq<Byte>, ip: nat) returns (back: nat)
    requires Codable(ct, norm, tableLog, src) && 0 < ip && ip + 2 <= |src| && next != last
    requires Stands(next, last, bitC, ct, norm, tableLog, src, ip)
    requires bitC.bitPos + tableLog < 64
    modifies next, bitC
    ensures back == ip - 1 && Stands(last, next, bitC, ct, norm, tableLog, src, back)
    ensures bitC.bitPos <= old(bitC.bitPos) + tableLog
  {
    hide IsCTable, ValidNorm, IsRleCTable, Pow2, EncodeFrom, Next, First, NbBitsOut;
    LogBound(norm, tableLog);
    EncodeStep(ct, norm, tableLog, src, ip - 1);
    next.EncodeSymbol(bitC, src[ip - 1]);
    back := ip - 1;
  }

  /** `FSE_FLUSHBITS`. */
  method Flush(next: CState, last: CState, bitC: CStream, ghost ct: CTable, ghost norm: seq<int>,
               ghost tableLog: nat, ghost src: seq<Byte>, ghost ip: nat, fast: bool)
    requires Codable(ct, norm, tableLog, src) && ip + 2 <= |src|
    requires Stands(next, last, bitC, ct, norm, tableLog, src, ip)
    requires fast ==> EncodeFrom(ct, norm, tableLog, src, 0).bits.len / 8 <= bitC.endPtr
    modifies bitC, bitC.dst
    ensures Stands(next, last, bitC, ct, norm, tableLog, src, ip) && bitC.bitPos < 8
  {
    hide IsCTable, ValidNorm, Pow2, EncodeFrom;
    LengthGrows(ct, norm, tableLog, src, ip);
    if fast { bitC.FlushBitsFast(); } else { bitC.FlushBits(); }
  }

  /** `FSE_compress_usingCTable`: 0 when the source has at most two bytes or the
      stream does not fit, and otherwise the size of the sealed `EncodeAll`. */
  method CompressUsingCTable(dst: array<Byte>, src: seq<Byte>, ct: CTable, ghost norm: seq<int>, ghost tableLog: nat)
    returns (size: nat)
    requires Codable(ct, norm, tableLog, src)
    requires FitsUnchecked(ct, norm, tableLog, src, dst.Length)
    modifies dst
    ensures |src| <= 2 || dst.Length <= 8 ==> size == 0
    ensures |src| > 2 && dst.Length > 8 ==>
              var len := EncodeAll(ct, norm, tableLog, src).len;
              size == if (len + 1) / 8 < dst.Length - 8 then (len + 8) / 8 else 0
    ensures size > 0 ==> size <= dst.Length && |src| > 2 && Sealed(dst[..size], EncodeAll(ct, norm, tableLog, src))
  {
    hide IsCTable, ValidNorm, IsRleCTable, Pow2, EncodeFrom, EncodeAll, Sealed, Stands;
    var fast := dst.Length >= BlockBound(|src|);
    if |src| <= 2 { return 0; }
    if dst.Length <= 8 { return 0; }
    var bitC := new CStream(dst);
    var s1, s2, ip := StartChains(bitC, src, ct, norm, tableLog);
    ip := JoinToFour(s1, s2, bitC, ct, norm, tableLog, src, ip, fast);
    while ip > 0
      invariant 0 <= ip && ip % 4 == 0 && ip + 2 <= |src|
      invariant Stands(s2, s1, bitC, ct, norm, tableLog, src, ip) && bitC.bitPos < 8
    {
      ip := EncodeFour(s1, s2, bitC, ct, norm, tableLog, src, ip, fast);
    }
    size := Finish(s1, s2, bitC, ct, norm, tableLog, src);
  }

  /** Leaves a number of symbols that is a multiple of four. */
  method JoinToFour(s1: CState, s2: CState, bitC: CStream, ghost ct: CTable, ghost norm: seq<int>,
                    ghost tableLog: nat, src: seq<Byte>, at: nat, fast: bool) returns (ip: nat)
    requires Codable(ct, norm, tableLog, src) && at + 2 == |src| && s1 != s2
    requires if |src| % 2 == 1 then Stands(s1, s2, bitC, ct, norm, tableLog, src, at) else Stands(s2, s1, bitC, ct, norm, tableLog, src, at)
    requires bitC.bitPos < 8
    requires fast ==> EncodeFrom(ct, norm, tableLog, src, 0).bits.len / 8 <= bitC.endPtr
    modifies s1, s2, bitC, bitC.dst
    ensures ip % 4 == 0 && ip + 2 <= |src|
    ensures Stands(s2, s1, bitC, ct, norm, tableLog, src, ip) && bitC.bitPos < 8
  {
    hide IsCTable, ValidNorm, IsRleCTable, Encodes, Pow2, EncodeFrom, EncodeAll, Stands, Codable;
    CodableLog(ct, norm, tableLog, src);
    JoinParities(|src|, at);
    ip := at;
    if |src| % 2 == 1 {
      ip := EncodeIn(s1, s2, bitC, ct, norm, tableLog, src, ip);
      Flush(s2, s1, bitC, ct, norm, tableLog, src, ip, fast);
    }
    assert ip == at - at % 2;
    if (|src| - 2) / 2 % 2 == 1 {
      ip := EncodeIn(s2, s1, bitC, ct, norm, tableLog, src, ip);
      ip := EncodeIn(s1, s2, bitC, ct, norm, tableLog, src, ip);
      Flush(s2, s1, bitC, ct, norm, tableLog, src, ip, fast);
    }
  }

  lemma JoinParities(n: nat, at: nat)
    requires at + 2 == n
    ensures n % 2 == at % 2 && (n - 2) / 2 % 2 == at / 2 % 2 && at % 2 <= at
    ensures var ip := at - at % 2; if at / 2 % 2 == 1 then ip >= 2 && (ip - 2) % 4 == 0 else ip % 4 == 0
  {
    assert at == 4 * (at / 2 / 2) + 2 * (at / 2 % 2) + at % 2;
  }

  /** One turn of the main loop. */
  method EncodeFour(s1: CState, s2: CState, bitC: CStream, ghost ct: CTable, ghost norm: seq<int>,
                    ghost tableLog: nat, src: seq<Byte>, at: nat, fast: bool) returns (ip: nat)
    requires Codable(ct, norm, tableLog, src) && at + 2 <= |src| && s1 != s2
    requires at > 0 && at % 4 == 0
    requires Stands(s2, s1, bitC, ct, norm, tableLog, src, at) && bitC.bitPos < 8
    requires fast ==> EncodeFrom(ct, norm, tableLog, src, 0).bits.len / 8 <= bitC.endPtr
    modifies s1, s2, bitC, bitC.dst
    ensures ip == at - 4
    ensures Stands(s2, s1, bitC, ct, norm, tableLog, src, ip) && bitC.bitPos < 8
  {
    hide IsCTable, ValidNorm, Pow2, EncodeFrom, EncodeAll, Stands;
    LogBound(norm, tableLog);
    ip := EncodeIn(s2, s1, bitC, ct, norm, tableLog, src, at);
    ip := EncodeIn(s1, s2, bitC, ct, norm, tableLog, src, ip);
    ip := EncodeIn(s2, s1, bitC, ct, norm, tableLog, src, ip);
    ip := EncodeIn(s1, s2, bitC, ct, norm, tableLog, src, ip);
    Flush(s2, s1, bitC, ct, norm, tableLog, src, ip, fast);
  }

  /** Flushes both states, the second one first, and seals the stream. */
  method Finish(s1: CState, s2: CState, bitC: CStream, ghost ct: CTable, ghost norm: seq<int>,
                ghost tableLog: nat, ghost src: seq<Byte>) returns (size: nat)
    requires Codable(ct, norm, tableLog, src) && 2 <= |src| && s1 != s2
    requires Stands(s2, s1, bitC, ct, norm, tableLog, src, 0) && bitC.bitPos < 8
    modifies bitC, bitC.dst
    ensures var len := EncodeAll(ct, norm, tableLog, src).len;
            size == if (len + 1) / 8 < bitC.endPtr then (len + 8) / 8 else 0
    ensures size > 0 ==> size <= bitC.dst.Length && Sealed(bitC.dst[..size], EncodeAll(ct, norm, tableLog, src))
  {
    hide IsCTable, ValidNorm, Pow2, EncodeFrom;
    s2.FlushState(bitC);
    s1.FlushState(bitC);
    size := bitC.CloseCStream();
  }

  lemma CodableLog(ct: CTable, norm: seq<int>, tableLog: nat, src: seq<Byte>)
    requires Codable(ct, norm, tableLog, src)
    ensures tableLog <= 12
  {}

  lemma LogBound(norm: seq<int>, tableLog: nat)
    requires ValidNorm(norm, tableLog)
    ensures 5 <= tableLog <= 12
  {}

  /** The last symbol starts the chain of its own parity, the one before it the other. */
  method StartChains(bitC: CStream, src: seq<Byte>, ct: CTable, ghost norm: seq<int>, ghost tableLog: nat)
    returns (s1: CState, s2: CState, ip: nat)
    requires Codable(ct, norm, tableLog, src) && |src| >= 2
    requires bitC.Valid() && bitC.stack == Empty
    ensures fresh(s1) && fresh(s2) && s1 != s2
    ensures ip + 2 == |src|
    ensures if |src| % 2 == 1 then Stands(s1, s2, bitC, ct, norm, tableLog, src, ip) else Stands(s2, s1, bitC, ct, norm, tableLog, src, ip)
  {
    hide IsCTable, ValidNorm, IsRleCTable, Pow2, EncodeFrom, First;
    LogBound(norm, tableLog);
    ip := |src|;
    EncodeLast(ct, norm, tableLog, src, ip - 2);
    if |src| % 2 == 1 {
      s1 := new CState(ct, norm, tableLog, src[ip - 1]);
      s2 := new CState(ct, norm, tableLog, src[ip - 2]);
    } else {
      s2 := new CState(ct, norm, tableLog, src[ip - 1]);
      s1 := new CState(ct, norm, tableLog, src[ip - 2]);
    }
    ip := ip - 2;
  }
}
