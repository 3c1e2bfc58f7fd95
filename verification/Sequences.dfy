/** The sequence section (section 3.1.1.3.2 of RFC 8878): three FSE states and raw
    extra bits on one stream. */
module Sequences {
  import opened Bits
  import opened BitStream
  import opened Results
  import opened FseSpread
  import opened FseTable
  import FseCodec

  /** The number of extra bits that a length code may ask for. */
  type Width = n: nat | n <= 16

  const LL_BITS: seq<Width> := [
    0, 0, 0, 0, 0, 0, 0, 0,
    0, 0, 0, 0, 0, 0, 0, 0,
    1, 1, 1, 1, 2, 2, 3, 3,
    4, 6, 7, 8, 9, 10, 11, 12,
    13, 14, 15, 16
  ]

  const ML_BITS: seq<Width> := NoBits(32) + [
    1, 1, 1, 1, 2, 2, 3, 3,
    4, 4, 5, 7, 8, 9, 10, 11,
    12, 13, 14, 15, 16
  ]

  function NoBits(n: nat): (r: seq<Width>)
    ensures |r| == n && forall i :: 0 <= i < n ==> r[i] == 0
  {
    seq(n, _ => 0)
  }

  const MAX_OFF := 31
  const LL_FSE_LOG := 9
  const ML_FSE_LOG := 9
  const OFF_FSE_LOG := 8
  const STREAM_ACCUMULATOR_MIN := 57

  /** A `SeqDef` and its three codes. */
  datatype Sequence = Sequence(litLength: nat, mlBase: nat, offBase: nat, llCode: Byte, mlCode: Byte, ofCode: Byte)

  /** An FSE encoding table and what it was built from. */
  datatype Coder = Coder(ct: CTable, norm: seq<int>, tableLog: nat) {
    ghost predicate Ok() { FseCodec.Encodes(ct, norm, tableLog) }

    ghost predicate Codes(s: nat) { Ok() && s < |norm| && norm[s] != 0 }

    ghost function First(s: nat): (x: nat)
      requires Codes(s)
      ensures FseCodec.StateOf(x, tableLog)
    {
      FseCodec.Start(ct, norm, tableLog, s)
    }

    ghost function Next(s: nat, x: nat): (y: nat)
      requires Codes(s) && FseCodec.StateOf(x, tableLog)
      ensures FseCodec.StateOf(y, tableLog)
    {
      FseCodec.Move(ct, norm, tableLog, s, x)
    }

    /** The bits that coding `s` from state `x` sheds. */
    ghost function Shed(bits: Stack, s: nat, x: nat): (r: Stack)
      requires Codes(s) && FseCodec.StateOf(x, tableLog) && bits.Ok()
      ensures r.Ok()
    {
      bits.PushLow(x, NbBitsOut(ct, s, x))
    }
  }

  /** The three tables of a block. */
  datatype Coders = Coders(ml: Coder, off: Coder, ll: Coder) {
    ghost predicate Ok()
    {
      && ml.Ok() && off.Ok() && ll.Ok()
      && ml.tableLog <= ML_FSE_LOG && off.tableLog <= OFF_FSE_LOG && ll.tableLog <= LL_FSE_LOG
    }

    ghost predicate Codes(q: Sequence)
    {
      && ml.Codes(q.mlCode) && off.Codes(q.ofCode) && ll.Codes(q.llCode)
      && q.mlCode < |ML_BITS| && q.ofCode <= MAX_OFF && q.llCode < |LL_BITS|
    }

    ghost predicate CodesAll(seqs: seq<Sequence>) { forall i :: 0 <= i < |seqs| ==> Codes(seqs[i]) }
  }

  // ----- the reference stream -----

  datatype States = States(ml: nat, off: nat, ll: nat, bits: Stack)

  ghost predicate Good(st: States, c: Coders)
  {
    && FseCodec.StateOf(st.ml, c.ml.tableLog) && FseCodec.StateOf(st.off, c.off.tableLog)
    && FseCodec.StateOf(st.ll, c.ll.tableLog) && st.bits.Ok()
  }

  /** The raw bits of a sequence. */
  function Extra(bits: Stack, q: Sequence): (r: Stack)
    requires bits.Ok() && q.llCode < |LL_BITS| && q.mlCode < |ML_BITS|
    ensures r.Ok()
  {
    bits.PushLow(q.litLength, LL_BITS[q.llCode]).PushLow(q.mlBase, ML_BITS[q.mlCode]).PushLow(q.offBase, q.ofCode)
  }

  /** The states and bits after `seqs[i..]` was encoded, last sequence first. */
  ghost function EncodeFrom(c: Coders, seqs: seq<Sequence>, i: nat): (st: States)
    requires c.Ok() && c.CodesAll(seqs) && i < |seqs|
    ensures Good(st, c)
    decreases |seqs| - i
  {
    var q := seqs[i];
    assert c.Codes(q);
    if i == |seqs| - 1 then
      States(c.ml.First(q.mlCode), c.off.First(q.ofCode), c.ll.First(q.llCode), Extra(Empty, q))
    else
      var st := EncodeFrom(c, seqs, i + 1);
      OneMore(c, st, q)
  }

  /** One more sequence: each state sheds bits and moves on, then come the raw bits. */
  ghost function OneMore(c: Coders, st: States, q: Sequence): (r: States)
    requires c.Ok() && c.Codes(q) && Good(st, c)
    ensures Good(r, c)
  {
    var shed := c.ll.Shed(c.ml.Shed(c.off.Shed(st.bits, q.ofCode, st.off), q.mlCode, st.ml), q.llCode, st.ll);
    States(c.ml.Next(q.mlCode, st.ml), c.off.Next(q.ofCode, st.off), c.ll.Next(q.llCode, st.ll), Extra(shed, q))
  }

  ghost function Encoded(c: Coders, seqs: seq<Sequence>): (s: Stack)
    requires c.Ok() && c.CodesAll(seqs) && |seqs| > 0
    ensures s.Ok()
  {
    var st := EncodeFrom(c, seqs, 0);
    st.bits.PushLow(st.ml, c.ml.tableLog).PushLow(st.off, c.off.tableLog).PushLow(st.ll, c.ll.tableLog)
  }

  /** What the stream carries of a sequence: its codes and the bits they ask for. */
  function Sent(q: Sequence): Sequence
    requires q.llCode < |LL_BITS| && q.mlCode < |ML_BITS|
  {
    q.(litLength := Low(q.litLength, LL_BITS[q.llCode]), mlBase := Low(q.mlBase, ML_BITS[q.mlCode]),
       offBase := Low(q.offBase, q.ofCode))
  }

  /** Every field has the width of its code. */
  ghost predicate Fits(q: Sequence)
  {
    && q.llCode < |LL_BITS| && q.mlCode < |ML_BITS|
    && q.litLength < Pow2(LL_BITS[q.llCode]) && q.mlBase < Pow2(ML_BITS[q.mlCode]) && q.offBase < Pow2(q.ofCode)
  }

  lemma SentWhole(q: Sequence)
    requires Fits(q)
    ensures Sent(q) == q
  {
    hide Low, Pow2;
    LowSmall(q.litLength, LL_BITS[q.llCode]);
    LowSmall(q.mlBase, ML_BITS[q.mlCode]);
    LowSmall(q.offBase, q.ofCode);
  }

  // ----- the encoder -----

  /** Where the three states and the stream stand. */
  ghost predicate Stands(ml: FseCodec.CState, off: FseCodec.CState, ll: FseCodec.CState, bitC: CStream, c: Coders, st: States)
    reads ml, off, ll, bitC, bitC.dst
  {
    && ml.Valid() && off.Valid() && ll.Valid() && bitC.Valid()
    && ml.ct == c.ml.ct && ml.norm == c.ml.norm && ml.tableLog == c.ml.tableLog
    && off.ct == c.off.ct && off.norm == c.off.norm && off.tableLog == c.off.tableLog
    && ll.ct == c.ll.ct && ll.norm == c.ll.norm && ll.tableLog == c.ll.tableLog
    && States(ml.value, off.value, ll.value, bitC.stack) == st
  }

  /** The offset bits; the long form splits off what a 64-bit register cannot take,
      which for codes up to 31 is nothing. */
  method AddOffset(bitC: CStream, q: Sequence, longOffsets: bool)
    requires bitC.Valid() && q.ofCode <= MAX_OFF && bitC.bitPos + q.ofCode < 64
    modifies bitC
    ensures bitC.Valid() && bitC.stack == old(bitC.stack).PushLow(q.offBase, q.ofCode)
    ensures bitC.bitPos == old(bitC.bitPos) + q.ofCode
  {
    if longOffsets {
      var ofBits := q.ofCode;
      var extraBits := ofBits - (if ofBits < STREAM_ACCUMULATOR_MIN - 1 then ofBits else STREAM_ACCUMULATOR_MIN - 1);
      assert extraBits == 0;
      ShiftNone(q.offBase);
      bitC.AddBits(Shr(q.offBase, extraBits), ofBits - extraBits);
    } else {
      bitC.AddBits(q.offBase, q.ofCode);
    }
  }

  /** The raw bits of a sequence that is not the last one.  With the two conditional
      flushes the register never takes more than 63 bits. */
  method AddExtra(bitC: CStream, q: Sequence, longOffsets: bool)
    requires bitC.Valid() && q.llCode < |LL_BITS| && q.mlCode < |ML_BITS| && q.ofCode <= MAX_OFF
    requires bitC.bitPos < 8 + ML_FSE_LOG + LL_FSE_LOG + OFF_FSE_LOG
    modifies bitC, bitC.dst
    ensures bitC.Valid() && bitC.stack == Extra(old(bitC.stack), q) && bitC.bitPos < 8
  {
    hide Pow2, Low, Shr, Shl;
    var llBits, mlBits, ofBits := LL_BITS[q.llCode], ML_BITS[q.mlCode], q.ofCode;
    if ofBits + mlBits + llBits >= 64 - 7 - (LL_FSE_LOG + ML_FSE_LOG + OFF_FSE_LOG) { bitC.FlushBits(); }
    bitC.AddBits(q.litLength, llBits);
    bitC.AddBits(q.mlBase, mlBits);
    if ofBits + mlBits + llBits > 56 { bitC.FlushBits(); }
    AddOffset(bitC, q, longOffsets);
    bitC.FlushBits();
  }

  /** The three states take one sequence. */
  method EncodeCodes(ml: FseCodec.CState, off: FseCodec.CState, ll: FseCodec.CState, bitC: CStream, q: Sequence,
                     ghost c: Coders, ghost st: States)
    requires c.Ok() && c.Codes(q) && ml != off && off != ll && ml != ll
    requires Stands(ml, off, ll, bitC, c, st) && bitC.bitPos < 8
    modifies ml, off, ll, bitC
    ensures Good(st, c) && bitC.Valid() && bitC.bitPos < 8 + ML_FSE_LOG + LL_FSE_LOG + OFF_FSE_LOG
    ensures bitC.stack == c.ll.Shed(c.ml.Shed(c.off.Shed(st.bits, q.ofCode, st.off), q.mlCode, st.ml), q.llCode, st.ll)
    ensures Stands(ml, off, ll, bitC, c, States(c.ml.Next(q.mlCode, st.ml), c.off.Next(q.ofCode, st.off),
                                                 c.ll.Next(q.llCode, st.ll), bitC.stack))
  {
    hide Pow2, Low, Shr, Shl, IsCTable, ValidNorm, FseCodec.IsRleCTable, NbBitsOut;
    off.EncodeSymbol(bitC, q.ofCode);
    ml.EncodeSymbol(bitC, q.mlCode);
    ll.EncodeSymbol(bitC, q.llCode);
  }

  /** One turn of the encoding loop. */
  method EncodeOne(ml: FseCodec.CState, off: FseCodec.CState, ll: FseCodec.CState, bitC: CStream, q: Sequence, longOffsets: bool,
                   ghost c: Coders, ghost st: States)
    requires c.Ok() && c.Codes(q) && ml != off && off != ll && ml != ll
    requires Stands(ml, off, ll, bitC, c, st) && bitC.bitPos < 8
    modifies ml, off, ll, bitC, bitC.dst
    ensures Good(st, c) && Stands(ml, off, ll, bitC, c, OneMore(c, st, q)) && bitC.bitPos < 8
  {
    hide Pow2, Low, Shr, Shl, IsCTable, ValidNorm, FseCodec.IsRleCTable, NbBitsOut, Extra, Coder.Next, Coder.Shed;
    EncodeCodes(ml, off, ll, bitC, q, c, st);
    AddExtra(bitC, q, longOffsets);
  }

  /** The last sequence, which is coded first: the states start at its codes. */
  method EncodeFirst(bitC: CStream, q: Sequence, longOffsets: bool, mlTable: CTable, offTable: CTable, llTable: CTable,
                     ghost c: Coders)
    returns (ml: FseCodec.CState, off: FseCodec.CState, ll: FseCodec.CState)
    requires c.Ok() && c.Codes(q) && c.ml.ct == mlTable && c.off.ct == offTable && c.ll.ct == llTable
    requires bitC.Valid() && bitC.bitPos == 0 && bitC.stack == Empty
    modifies bitC, bitC.dst
    ensures fresh(ml) && fresh(off) && fresh(ll) && ml != off && off != ll && ml != ll && bitC.bitPos < 8
    ensures Stands(ml, off, ll, bitC, c,
                   States(c.ml.First(q.mlCode), c.off.First(q.ofCode), c.ll.First(q.llCode), Extra(Empty, q)))
  {
    hide Pow2, Low, Shr, Shl, IsCTable, ValidNorm, FseCodec.IsRleCTable, FseCodec.Start;
    ml := new FseCodec.CState(mlTable, c.ml.norm, c.ml.tableLog, q.mlCode);
    off := new FseCodec.CState(offTable, c.off.norm, c.off.tableLog, q.ofCode);
    ll := new FseCodec.CState(llTable, c.ll.norm, c.ll.tableLog, q.llCode);
    bitC.AddBits(q.litLength, LL_BITS[q.llCode]);
    bitC.AddBits(q.mlBase, ML_BITS[q.mlCode]);
    AddOffset(bitC, q, longOffsets);
    bitC.FlushBits();
  }

  /** `ZSTD_encodeSequences_body`: the size of the sealed `Encoded`, or an error
      exactly when its whole bytes would reach the last eight bytes of `dst`. */
  method EncodeSequences(dst: array<Byte>, mlTable: CTable, offTable: CTable, llTable: CTable, seqs: seq<Sequence>,
                         longOffsets: bool, ghost c: Coders) returns (r: Result<nat>)
    requires c.Ok() && c.CodesAll(seqs) && |seqs| > 0
    requires c.ml.ct == mlTable && c.off.ct == offTable && c.ll.ct == llTable
    modifies dst
    ensures r == if dst.Length > 8 && (Encoded(c, seqs).len + 1) / 8 < dst.Length - 8
                 then Ok((Encoded(c, seqs).len + 8) / 8) else Err(DstSizeTooSmall)
    ensures r.Ok? ==> r.value <= dst.Length && Sealed(dst[..r.value], Encoded(c, seqs))
  {
    hide Pow2, Low, Shr, Shl, IsCTable, ValidNorm, FseCodec.IsRleCTable, Extra, EncodeFrom, OneMore, Coder.First, Sealed;
    if dst.Length <= 8 { return Err(DstSizeTooSmall); }
    var bitC := new CStream(dst);
    var n := |seqs| - 1;
    assert c.Codes(seqs[n]);
    var ml, off, ll := EncodeFirst(bitC, seqs[n], longOffsets, mlTable, offTable, llTable, c);
    EncodeLast(c, seqs);
    while n > 0
      invariant 0 <= n < |seqs| && bitC.bitPos < 8
      invariant Stands(ml, off, ll, bitC, c, EncodeFrom(c, seqs, n))
    {
      n := n - 1;
      assert c.Codes(seqs[n]);
      EncodeNext(c, seqs, n);
      EncodeOne(ml, off, ll, bitC, seqs[n], longOffsets, c, EncodeFrom(c, seqs, n + 1));
    }
    r := Finish(ml, off, ll, bitC, c, EncodeFrom(c, seqs, 0), Encoded(c, seqs));
  }

  /** The last states, match lengths first, and the end mark. */
  method Finish(ml: FseCodec.CState, off: FseCodec.CState, ll: FseCodec.CState, bitC: CStream,
                ghost c: Coders, ghost st: States, ghost all: Stack) returns (r: Result<nat>)
    requires c.Ok() && Good(st, c) && Stands(ml, off, ll, bitC, c, st) && bitC.bitPos < 8 && bitC.endPtr == bitC.dst.Length - 8
    requires all == st.bits.PushLow(st.ml, c.ml.tableLog).PushLow(st.off, c.off.tableLog).PushLow(st.ll, c.ll.tableLog)
    modifies bitC, bitC.dst
    ensures r == if (all.len + 1) / 8 < bitC.endPtr then Ok((all.len + 8) / 8) else Err(DstSizeTooSmall)
    ensures r.Ok? ==> r.value <= bitC.dst.Length && Sealed(bitC.dst[..r.value], all)
  {
    hide Pow2, Low, Shr, Shl, IsCTable, ValidNorm, FseCodec.IsRleCTable, Sealed;
    ml.FlushState(bitC);
    off.FlushState(bitC);
    ll.FlushState(bitC);
    var streamSize := bitC.CloseCStream();
    if streamSize == 0 { return Err(DstSizeTooSmall); }
    return Ok(streamSize);
  }

  lemma EncodeLast(c: Coders, seqs: seq<Sequence>)
    requires c.Ok() && c.CodesAll(seqs) && |seqs| > 0
    ensures var q := seqs[|seqs| - 1];
      c.Codes(q) && EncodeFrom(c, seqs, |seqs| - 1)
      == States(c.ml.First(q.mlCode), c.off.First(q.ofCode), c.ll.First(q.llCode), Extra(Empty, q))
  {}

  lemma EncodeNext(c: Coders, seqs: seq<Sequence>, i: nat)
    requires c.Ok() && c.CodesAll(seqs) && i + 1 < |seqs|
    ensures c.Codes(seqs[i]) && EncodeFrom(c, seqs, i) == OneMore(c, EncodeFrom(c, seqs, i + 1), seqs[i])
  {}
}
