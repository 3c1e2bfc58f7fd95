/** `FSE_decompress_usingDTable`: the four-symbol loop and the careful tail, proved
    against `FseCodec.DecodeStack` on every input, well-formed or not. */
module FseDecoder {
  import opened Bits
  import opened BitStream
  import opened FseSpread
  import opened FseTable
  import opened FseCodec
  import opened Results

  /** `FSE_DState_t`. */
  class DState {
    var state: nat
    const dt: DTable
    ghost const norm: seq<int>
    ghost const tableLog: nat

    ghost predicate Valid()
      reads this
    {
      Decodable(dt, norm, tableLog) && dt.tableLog == tableLog && state < Pow2(tableLog)
    }

    constructor (dt: DTable, ghost norm: seq<int>, ghost tableLog: nat)
      requires Decodable(dt, norm, tableLog) && dt.tableLog == tableLog
      ensures Valid() && this.dt == dt && this.norm == norm && this.tableLog == tableLog
    {
      this.dt := dt;
      this.norm := norm;
      this.tableLog := tableLog;
      state := 0;
    }

    /** `FSE_initDState`. */
    method Init(bitD: DStream)
      requires Valid() && bitD.Valid() && bitD.bitsConsumed < 400
      requires !bitD.Over() ==> bitD.bitsConsumed <= 8 || bitD.ptr == 0
      modifies this, bitD
      ensures Valid() && bitD.Valid() && bitD.bitsConsumed < old(bitD.bitsConsumed) + 32
      ensures old(bitD.Over()) || tableLog > old(bitD.Unread()).len ==> bitD.Over()
      ensures !old(bitD.Over()) && tableLog <= old(bitD.Unread()).len ==>
                && !bitD.Over() && state == old(bitD.Unread()).Top(tableLog)
                && bitD.Unread() == old(bitD.Unread()).Pop(tableLog)
      ensures !bitD.Over() ==> bitD.bitsConsumed < 8 || bitD.ptr == 0
    {
      hide IsDTable, Pow2, Low, Shr, Shl, Cum;
      state := bitD.ReadBits(dt.tableLog);
      var _ := bitD.Reload();
    }

    /** `FSE_decodeSymbol` and `FSE_decodeSymbolFast`. */
    method DecodeSymbol(bitD: DStream, fast: bool) returns (symbol: Byte)
      requires Valid() && bitD.Valid() && bitD.bitsConsumed < 400
      requires fast ==> dt.fastMode
      requires !bitD.Over() ==> tableLog <= 64 - bitD.bitsConsumed || bitD.ptr == 0
      modifies this, bitD`bitsConsumed
      ensures Valid() && bitD.Valid()
      ensures symbol == SymbolOf(dt, norm, tableLog, old(state))
      ensures bitD.bitsConsumed <= old(bitD.bitsConsumed) + tableLog
      ensures var nb := dt.entries[old(state)].nbBits;
              if old(bitD.Over()) || nb > old(bitD.Unread()).len then bitD.Over()
              else && !bitD.Over() && bitD.Unread() == old(bitD.Unread()).Pop(nb)
                   && state == NextOf(dt, norm, tableLog, old(state), old(bitD.Unread()).Top(nb))
    {
      hide IsDTable, Pow2, Low, Shr, Shl, Cum;
      DecodeInRange(dt, norm, tableLog, state, 0);
      var info := dt.entries[state];
      symbol := info.symbol;
      var lowBits;
      if fast {
        FastNeedsBits(dt, norm, tableLog, state);
        lowBits := bitD.ReadBitsFast(info.nbBits);
      } else {
        lowBits := bitD.ReadBits(info.nbBits);
      }
      DecodeInRange(dt, norm, tableLog, state, lowBits);
      state := info.newState + lowBits;
    }
  }

  /** What the decoder makes of a sealed or a damaged stream. */
  ghost function Decoded(dt: DTable, norm: seq<int>, tableLog: nat, src: seq<Byte>, capacity: nat): Result<seq<Byte>>
    requires Decodable(dt, norm, tableLog)
  {
    if |src| == 0 || src[|src| - 1] == 0 then Err(OpenError(src))
    else DecodeStack(dt, norm, tableLog, Opened(src), capacity)
  }

  /** What was written so far, followed by what is still to come, is the answer; `next`
      is the state that gives the next symbol. */
  ghost predicate Stands(next: DState, last: DState, bitD: DStream, dt: DTable, norm: seq<int>, tableLog: nat,
                         written: seq<Byte>, capacity: nat, goal: Result<seq<Byte>>)
    reads next, last, bitD
  {
    && next.Valid() && last.Valid() && bitD.Valid() && !bitD.Over()
    && next.dt == last.dt == dt && next.norm == last.norm == norm && next.tableLog == last.tableLog == tableLog
    && goal == Prepend(written, DecodeFrom(dt, norm, tableLog, next.state, last.state, bitD.Unread(), |written|, capacity))
  }

  lemma PrependPrepend(a: seq<Byte>, b: seq<Byte>, r: Result<seq<Byte>>)
    ensures Prepend(a, Prepend(b, r)) == Prepend(a + b, r)
  {
    if r.Ok? { assert a + (b + r.value) == (a + b) + r.value; }
  }

  /** `*op++ = FSE_GETSYMBOL(&next)`: the states take turns. */
  method Emit(next: DState, last: DState, bitD: DStream, ghost dt: DTable, ghost norm: seq<int>, ghost tableLog: nat,
              dst: array<Byte>, op: nat, fast: bool, ghost goal: Result<seq<Byte>>)
    requires op < dst.Length && next != last
    requires Stands(next, last, bitD, dt, norm, tableLog, dst[..op], dst.Length, goal)
    requires fast ==> dt.fastMode
    requires tableLog <= 64 - bitD.bitsConsumed || bitD.ptr == 0
    modifies next, bitD`bitsConsumed, dst
    ensures bitD.Valid() && last.Valid()
    ensures bitD.bitsConsumed <= old(bitD.bitsConsumed) + tableLog
    ensures tableLog <= old(bitD.Unread()).len ==>
              !bitD.Over() && bitD.Unread().len + tableLog >= old(bitD.Unread()).len
    ensures !bitD.Over() ==> Stands(last, next, bitD, dt, norm, tableLog, dst[..op + 1], dst.Length, goal)
    ensures bitD.Over() && op + 2 <= dst.Length ==>
              goal == Ok(dst[..op + 1] + [SymbolOf(dt, norm, tableLog, last.state)])
  {
    hide IsDTable, Pow2, Low, Shr, Shl, Cum, DecodeFrom, SymbolOf, NextOf, ValidNorm;
    ghost var cur, other, bits, written := next.state, last.state, bitD.Unread(), dst[..op];
    LogBound(norm, tableLog);
    DecodeInRange(dt, norm, tableLog, cur, 0);
    if dt.entries[cur].nbBits <= bits.len {
      DecodeStep(dt, norm, tableLog, cur, other, bits, op, dst.Length);
      PrependPrepend(written, [SymbolOf(dt, norm, tableLog, cur)],
                     DecodeFrom(dt, norm, tableLog, other,
                                NextOf(dt, norm, tableLog, cur, bits.Top(dt.entries[cur].nbBits)),
                                bits.Pop(dt.entries[cur].nbBits), op + 1, dst.Length));
    } else if op + 2 <= dst.Length {
      DecodeLast(dt, norm, tableLog, cur, other, bits, op, dst.Length);
      assert written + [SymbolOf(dt, norm, tableLog, cur), SymbolOf(dt, norm, tableLog, other)] ==
             written + [SymbolOf(dt, norm, tableLog, cur)] + [SymbolOf(dt, norm, tableLog, other)];
    }
    dst[op] := next.DecodeSymbol(bitD, fast);
    assert dst[..op + 1] == written + [SymbolOf(dt, norm, tableLog, cur)];
  }

  /** Up to four symbols per reload while the register is full and the output has
      room: 57 bits are enough for four symbols, so no check is needed between. */
  method EmitFour(s1: DState, s2: DState, bitD: DStream, ghost dt: DTable, ghost norm: seq<int>, ghost tableLog: nat,
                  dst: array<Byte>, op: nat, fast: bool, ghost goal: Result<seq<Byte>>)
    requires op + 4 <= dst.Length && s1 != s2
    requires Stands(s1, s2, bitD, dt, norm, tableLog, dst[..op], dst.Length, goal)
    requires fast ==> dt.fastMode
    requires bitD.bitsConsumed < 8
    modifies s1, s2, bitD`bitsConsumed, dst
    ensures Stands(s1, s2, bitD, dt, norm, tableLog, dst[..op + 4], dst.Length, goal)
  {
    hide IsDTable, Pow2, Low, Shr, Shl, Cum, DecodeFrom, SymbolOf, NextOf, ValidNorm, Decodable, Prepend;
    assert tableLog <= 12 by { StateLog(s1); }
    Emit(s1, s2, bitD, dt, norm, tableLog, dst, op, fast, goal);
    Emit(s2, s1, bitD, dt, norm, tableLog, dst, op + 1, fast, goal);
    Emit(s1, s2, bitD, dt, norm, tableLog, dst, op + 2, fast, goal);
    Emit(s2, s1, bitD, dt, norm, tableLog, dst, op + 3, fast, goal);
  }

  lemma StateLog(s: DState)
    requires s.Valid()
    ensures s.tableLog <= 12
  {
    LogBound(s.norm, s.tableLog);
  }

  /** `FSE_decompress_usingDTable`: writes what `Decoded` yields and returns its
      size, or fails as `Decoded` does. */
  method DecompressUsingDTable(dst: array<Byte>, src: seq<Byte>, dt: DTable, fast: bool,
                               ghost norm: seq<int>, ghost tableLog: nat) returns (r: Result<nat>)
    requires Decodable(dt, norm, tableLog) && dt.tableLog == tableLog
    requires fast ==> dt.fastMode
    modifies dst
    ensures match Decoded(dt, norm, tableLog, src, dst.Length)
            case Ok(v) => r == Ok(|v|) && |v| <= dst.Length && dst[..|v|] == v
            case Err(e) => r == Err(e)
  {
    hide IsDTable, Pow2, Low, Shr, Shl, Cum, DecodeFrom, SymbolOf, NextOf, ValidNorm, Opened, Prepend;
    var init := InitDStream(src);
    if init.Err? { return Err(init.error); }
    var bitD := init.value;
    LogBound(norm, tableLog);
    var s1 := new DState(dt, norm, tableLog);
    var s2 := new DState(dt, norm, tableLog);
    s1.Init(bitD);
    s2.Init(bitD);
    var status := bitD.Reload();
    if status == Overflow { return Err(CorruptionDetected); }
    ghost var goal := DecodeFrom(dt, norm, tableLog, s1.state, s2.state, bitD.Unread(), 0, dst.Length);
    assert goal == Decoded(dt, norm, tableLog, src, dst.Length);
    PrependNothing(goal);
    assert dst[..0] == [];
    var op := 0;
    while true
      invariant 0 <= op <= dst.Length
      invariant Stands(s1, s2, bitD, dt, norm, tableLog, dst[..op], dst.Length, goal)
      invariant fresh(s1) && fresh(s2) && fresh(bitD)
      decreases dst.Length - op
    {
      status := bitD.Reload();
      if !(status == Unfinished && op < dst.Length - 3) { break; }
      EmitFour(s1, s2, bitD, dt, norm, tableLog, dst, op, fast, goal);
      op := op + 4;
    }
    r := Tail(s1, s2, bitD, dt, norm, tableLog, dst, op, fast, goal);
  }

  lemma PrependNothing(r: Result<seq<Byte>>)
    ensures Prepend([], r) == r
  {
    if r.Ok? { assert [] + r.value == r.value; }
  }

  /** Near the end of the bits, or of the output: one symbol per reload, until a
      symbol asks for more bits than there are. */
  method Tail(s1: DState, s2: DState, bitD: DStream, ghost dt: DTable, ghost norm: seq<int>, ghost tableLog: nat,
              dst: array<Byte>, start: nat, fast: bool, ghost goal: Result<seq<Byte>>) returns (r: Result<nat>)
    requires start <= dst.Length && s1 != s2
    requires Stands(s1, s2, bitD, dt, norm, tableLog, dst[..start], dst.Length, goal)
    requires fast ==> dt.fastMode
    requires bitD.bitsConsumed < 8 || bitD.ptr == 0
    modifies s1, s2, bitD, dst
    ensures match goal
            case Ok(v) => r == Ok(|v|) && |v| <= dst.Length && dst[..|v|] == v
            case Err(e) => r == Err(e)
  {
    hide IsDTable, Pow2, Low, Shr, Shl, Cum, DecodeFrom, SymbolOf, NextOf, ValidNorm, Prepend, Decodable;
    assert tableLog <= 12 by { StateLog(s1); }
    var op := start;
    while true
      invariant 0 <= op <= dst.Length
      invariant Stands(s1, s2, bitD, dt, norm, tableLog, dst[..op], dst.Length, goal)
      invariant bitD.bitsConsumed < 8 || bitD.ptr == 0
      decreases dst.Length - op
    {
      if op > dst.Length - 2 {
        NoRoom(s1, s2, bitD, dt, norm, tableLog, dst[..op], dst.Length, goal);
        return Err(DstSizeTooSmall);
      }
      Emit(s1, s2, bitD, dt, norm, tableLog, dst, op, fast, goal);
      op := op + 1;
      var status := bitD.Reload();
      if status == Overflow {
        dst[op] := s2.DecodeSymbol(bitD, fast);
        op := op + 1;
        assert dst[..op] == goal.value;
        return Ok(op);
      }
      if op > dst.Length - 2 {
        NoRoom(s2, s1, bitD, dt, norm, tableLog, dst[..op], dst.Length, goal);
        return Err(DstSizeTooSmall);
      }
      Emit(s2, s1, bitD, dt, norm, tableLog, dst, op, fast, goal);
      op := op + 1;
      status := bitD.Reload();
      if status == Overflow {
        dst[op] := s1.DecodeSymbol(bitD, fast);
        op := op + 1;
        assert dst[..op] == goal.value;
        return Ok(op);
      }
    }
  }

  lemma NoRoom(s1: DState, s2: DState, bitD: DStream, dt: DTable, norm: seq<int>, tableLog: nat,
               written: seq<Byte>, capacity: nat, goal: Result<seq<Byte>>)
    requires Stands(s1, s2, bitD, dt, norm, tableLog, written, capacity, goal)
    requires |written| + 2 > capacity
    ensures goal == Err(DstSizeTooSmall)
  {
    hide IsDTable, Pow2, Low, Shr, Shl, Cum, SymbolOf, NextOf, ValidNorm;
  }

  /** The bytes that the encoder seals decode to the source, and to nothing else,
      exactly when no symbol owns the whole table. */
  lemma StreamRoundTrip(ct: CTable, dt: DTable, norm: seq<int>, tableLog: nat, src: seq<Byte>,
                        bytes: seq<Byte>, capacity: nat)
    requires Codable(ct, norm, tableLog, src) && Decodable(dt, norm, tableLog)
    requires 2 <= |src| <= capacity
    requires Sealed(bytes, EncodeAll(ct, norm, tableLog, src))
    ensures Decoded(dt, norm, tableLog, bytes, capacity) == Ok(src) <==> Shared(norm, tableLog)
  {
    hide Pow2, IsCTable, IsDTable, ValidNorm, EncodeAll, DecodeStack, Shared, Opened, Sealed;
    OpenSealed(bytes, EncodeAll(ct, norm, tableLog, src));
    RoundTripExactly(ct, dt, norm, tableLog, src, capacity);
  }
}
