/** Reading the sequence section backwards, in the order of `ZSTD_decodeSequence`,
    and the round trip with `Sequences`. */
module SeqDecoder {
  import opened Bits
  import opened BitStream
  import opened Results
  import opened FseSpread
  import opened FseTable
  import opened Sequences
  import opened SeqValues
  import FseCodec

  /** `ZSTD_buildSeqTable_rle`: the only cell has the only symbol, and asks for no bits. */
  ghost predicate IsRleDTable(dt: DTable, norm: seq<int>)
  {
    FseCodec.Sole(norm) && dt.entries == [Entry(0, |norm| - 1, 0)]
  }

  /** An FSE decoding table and what it was built from. */
  datatype Decoder = Decoder(dt: DTable, norm: seq<int>, tableLog: nat) {
    ghost predicate Ok()
    {
      && dt.tableLog == tableLog
      && if tableLog == 0 then IsRleDTable(dt, norm) else FseCodec.Decodable(dt, norm, tableLog)
    }

    ghost predicate Has(u: nat) { Ok() && u < Pow2(tableLog) }

    ghost function Symbol(u: nat): (s: nat)
      requires Has(u)
      ensures s < |norm| && s < 256
    {
      if tableLog > 0 then DecodeInRange(dt, norm, tableLog, u, 0); FseCodec.SymbolOf(dt, norm, tableLog, u)
      else dt.entries[u].symbol
    }

    ghost function NbBits(u: nat): (nb: nat)
      requires Has(u)
      ensures nb <= tableLog
    {
      if tableLog > 0 then DecodeInRange(dt, norm, tableLog, u, 0); dt.entries[u].nbBits else dt.entries[u].nbBits
    }

    ghost function Next(u: nat, low: nat): (v: nat)
      requires Has(u) && low < Pow2(NbBits(u))
      ensures Has(v)
    {
      if tableLog > 0 then FseCodec.NextOf(dt, norm, tableLog, u, low) else 0
    }
  }

  datatype Decoders = Decoders(ml: Decoder, off: Decoder, ll: Decoder) {
    ghost predicate Ok()
    {
      && ml.Ok() && off.Ok() && ll.Ok()
      && |ml.norm| <= |ML_BITS| && |off.norm| <= MAX_OFF + 1 && |ll.norm| <= |LL_BITS|
      && ml.tableLog <= ML_FSE_LOG && off.tableLog <= OFF_FSE_LOG && ll.tableLog <= LL_FSE_LOG
    }

    ghost predicate Has(st: DStates)
    {
      Ok() && ml.Has(st.ml) && off.Has(st.off) && ll.Has(st.ll)
    }
  }

  datatype DStates = DStates(ml: nat, off: nat, ll: nat)

  // ----- the reference reader -----

  /** What is left of a stream, or `Gone` once more was asked for than there was. */
  datatype Rest = Gone | Left(s: Stack) {
    predicate Ok() { Left? ==> s.Ok() }

    function Value(n: nat): (v: nat)
      requires Ok()
      ensures v < Pow2(n)
    {
      if Left? && n <= s.len then s.Top(n) else 0
    }

    function After(n: nat): (r: Rest)
      requires Ok()
      ensures r.Ok()
    {
      if Left? && n <= s.len then Left(s.Pop(n)) else Gone
    }
  }

  /** The raw bits of the sequence that the states stand for: offset, match length,
      literal length. */
  ghost function GetExtra(d: Decoders, st: DStates, b: Rest): (r: (Sequence, Rest))
    requires d.Has(st) && b.Ok()
    ensures r.1.Ok()
  {
    var ml, off, ll := d.ml.Symbol(st.ml), d.off.Symbol(st.off), d.ll.Symbol(st.ll);
    var b1 := b.After(off);
    var b2 := b1.After(ML_BITS[ml]);
    (Sequence(b2.Value(LL_BITS[ll]), b1.Value(ML_BITS[ml]), b.Value(off), ll, ml, off), b2.After(LL_BITS[ll]))
  }

  /** The states after the sequence: literal lengths, match lengths, offsets. */
  ghost function Advance(d: Decoders, st: DStates, b: Rest): (r: (DStates, Rest))
    requires d.Has(st) && b.Ok()
    ensures d.Has(r.0) && r.1.Ok()
  {
    var b1 := b.After(d.ll.NbBits(st.ll));
    var b2 := b1.After(d.ml.NbBits(st.ml));
    (DStates(d.ml.Next(st.ml, b1.Value(d.ml.NbBits(st.ml))), d.off.Next(st.off, b2.Value(d.off.NbBits(st.off))),
             d.ll.Next(st.ll, b.Value(d.ll.NbBits(st.ll)))), b2.After(d.off.NbBits(st.off)))
  }

  /** Reads `n` more sequences after `done`; the stream must then be at its end. */
  ghost function DecodeFrom(d: Decoders, st: DStates, b: Rest, n: nat, done: seq<Sequence>): Result<seq<Sequence>>
    requires d.Has(st) && b.Ok() && n > 0
    decreases n
  {
    var (q, b1) := GetExtra(d, st, b);
    if n == 1 then Closed(b1, done + [q])
    else
      var (next, b2) := Advance(d, st, b1);
      DecodeFrom(d, next, b2, n - 1, done + [q])
  }

  function Closed(b: Rest, done: seq<Sequence>): Result<seq<Sequence>>
  {
    if b.Left? && b.s.len == 0 then Ok(done) else Err(CorruptionDetected)
  }

  /** The whole section: the three starting states, then the sequences. */
  ghost function Decoded(d: Decoders, b: Rest, n: nat): Result<seq<Sequence>>
    requires d.Ok() && b.Ok() && n > 0
  {
    var b1 := b.After(d.ll.tableLog);
    var b2 := b1.After(d.off.tableLog);
    DecodeFrom(d, DStates(b2.Value(d.ml.tableLog), b1.Value(d.off.tableLog), b.Value(d.ll.tableLog)),
               b2.After(d.ml.tableLog), n, [])
  }

  // ----- the round trip -----

  /** Both sides of a table were built from the same counts. */
  ghost predicate Match(c: Coder, d: Decoder)
  {
    c.Ok() && d.Ok() && c.norm == d.norm && c.tableLog == d.tableLog
  }

  ghost predicate MatchAll(c: Coders, d: Decoders)
  {
    c.Ok() && d.Ok() && Match(c.ml, d.ml) && Match(c.off, d.off) && Match(c.ll, d.ll)
  }

  ghost function SentAll(c: Coders, seqs: seq<Sequence>): (r: seq<Sequence>)
    requires c.CodesAll(seqs)
    ensures |r| == |seqs|
  {
    seq(|seqs|, i requires 0 <= i < |seqs| => assert c.Codes(seqs[i]); Sent(seqs[i]))
  }

  /** The decoder's state for an encoder's state. */
  function Cell(x: nat, tableLog: nat): (u: nat)
    requires FseCodec.StateOf(x, tableLog)
    ensures u < Pow2(tableLog)
  {
    if tableLog == 0 then 0 else x - Pow2(tableLog)
  }

  ghost function Down(c: Coders, st: States): DStates
    requires Good(st, c)
  {
    DStates(Cell(st.ml, c.ml.tableLog), Cell(st.off, c.off.tableLog), Cell(st.ll, c.ll.tableLog))
  }

  lemma PushLowBack(s: Stack, v: nat, n: nat)
    requires s.Ok()
    ensures Left(s.PushLow(v, n)).Value(n) == Low(v, n) && Left(s.PushLow(v, n)).After(n) == Left(s)
  {
    hide Low, Shr, Shl, Pow2;
    LowBound(v, n);
    PushPop(s, Low(v, n), n);
  }

  lemma ExtraBack(c: Coders, d: Decoders, st: DStates, bits: Stack, q: Sequence)
    requires MatchAll(c, d) && d.Has(st) && c.Codes(q) && bits.Ok()
    requires d.ml.Symbol(st.ml) == q.mlCode && d.off.Symbol(st.off) == q.ofCode && d.ll.Symbol(st.ll) == q.llCode
    ensures GetExtra(d, st, Left(Extra(bits, q))) == (Sent(q), Left(bits))
  {
    hide Low, Pow2, Rest.Value, Rest.After, IsCTable, IsDTable, ValidNorm;
    var s1 := bits.PushLow(q.litLength, LL_BITS[q.llCode]);
    var s2 := s1.PushLow(q.mlBase, ML_BITS[q.mlCode]);
    PushLowBack(bits, q.litLength, LL_BITS[q.llCode]);
    PushLowBack(s1, q.mlBase, ML_BITS[q.mlCode]);
    PushLowBack(s2, q.offBase, q.ofCode);
  }

  /** One state: its step is undone, bits included. */
  lemma StepBack(c: Coder, d: Decoder, s: Byte, x: nat, bits: Stack)
    requires Match(c, d) && c.Codes(s) && FseCodec.StateOf(x, c.tableLog) && bits.Ok()
    ensures var y := Cell(c.Next(s, x), c.tableLog);
      && d.Has(y) && d.Symbol(y) == s
      && var pushed := Left(c.Shed(bits, s, x));
         d.Next(y, pushed.Value(d.NbBits(y))) == Cell(x, c.tableLog) && pushed.After(d.NbBits(y)) == Left(bits)
  {
    hide Pow2, Low, Shr, Shl, IsCTable, IsDTable, ValidNorm, NbBitsOut;
    if c.tableLog > 0 {
      FseCodec.NextUndone(c.ct, d.dt, c.norm, c.tableLog, s, x, bits);
    } else {
      FseCodec.RleStep(c.ct, c.norm, s);
      PushLowBack(bits, 0, 0);
    }
  }

  lemma FirstBack(c: Coder, d: Decoder, s: Byte)
    requires Match(c, d) && c.Codes(s)
    ensures var y := Cell(c.First(s), c.tableLog); d.Has(y) && d.Symbol(y) == s
  {
    hide Pow2, IsCTable, IsDTable, ValidNorm, FirstIndex, FirstBits;
    if c.tableLog > 0 { FirstState(c.ct, d.dt, c.norm, c.tableLog, s); }
  }

  /** One sequence: its raw bits and then the three states come back. */
  lemma SequenceBack(c: Coders, d: Decoders, st: States, q: Sequence)
    requires MatchAll(c, d) && Good(st, c) && c.Codes(q)
    ensures var up := OneMore(c, st, q); var y := Down(c, up);
      && d.Has(y)
      && GetExtra(d, y, Left(up.bits)).0 == Sent(q)
      && Advance(d, y, GetExtra(d, y, Left(up.bits)).1) == (Down(c, st), Left(st.bits))
  {
    hide Pow2, Low, IsCTable, IsDTable, ValidNorm, Rest.Value, Rest.After, Coder.Next, Coder.Shed, Decoder.Next, Decoder.Symbol,
         Decoder.NbBits, Extra, GetExtra, NbBitsOut;
    var b1 := c.off.Shed(st.bits, q.ofCode, st.off);
    var b2 := c.ml.Shed(b1, q.mlCode, st.ml);
    var b3 := c.ll.Shed(b2, q.llCode, st.ll);
    StepBack(c.off, d.off, q.ofCode, st.off, st.bits);
    StepBack(c.ml, d.ml, q.mlCode, st.ml, b1);
    StepBack(c.ll, d.ll, q.llCode, st.ll, b2);
    ExtraBack(c, d, Down(c, OneMore(c, st, q)), b3, q);
  }

  /** Decoding from where encoding stood before `seqs[i]` gives the sequences from
      there on, and uses up the stream. */
  lemma {:induction false} DecodeEncoded(c: Coders, d: Decoders, seqs: seq<Sequence>, i: nat, done: seq<Sequence>)
    requires MatchAll(c, d) && c.CodesAll(seqs) && i < |seqs|
    ensures var st := EncodeFrom(c, seqs, i);
      && d.Has(Down(c, st))
      && DecodeFrom(d, Down(c, st), Left(st.bits), |seqs| - i, done) == Ok(done + SentAll(c, seqs)[i..])
    decreases |seqs| - i
  {
    hide Pow2, MatchAll, GetExtra, Advance, Extra, EncodeFrom, OneMore, Sent, Coders.Codes, Coders.Ok, Coder.First;
    var sent := SentAll(c, seqs);
    MatchParts(c, d);
    if i == |seqs| - 1 {
      EncodeLast(c, seqs);
      LastBack(c, d, seqs[i]);
      assert sent[i..] == [sent[i]];
    } else {
      EncodeNext(c, seqs, i);
      SequenceBack(c, d, EncodeFrom(c, seqs, i + 1), seqs[i]);
      DecodeEncoded(c, d, seqs, i + 1, done + [sent[i]]);
      assert done + [sent[i]] + sent[i + 1..] == done + sent[i..];
    }
  }

  lemma MatchParts(c: Coders, d: Decoders)
    requires MatchAll(c, d)
    ensures c.Ok() && d.Ok()
  {}

  lemma LastBack(c: Coders, d: Decoders, q: Sequence)
    requires MatchAll(c, d) && c.Codes(q)
    ensures var st := States(c.ml.First(q.mlCode), c.off.First(q.ofCode), c.ll.First(q.llCode), Extra(Empty, q));
      d.Has(Down(c, st)) && GetExtra(d, Down(c, st), Left(st.bits)) == (Sent(q), Left(Empty))
  {
    hide Pow2, Low, IsCTable, IsDTable, ValidNorm, Coder.First, Decoder.Symbol, Extra, GetExtra;
    FirstBack(c.ml, d.ml, q.mlCode);
    FirstBack(c.off, d.off, q.ofCode);
    FirstBack(c.ll, d.ll, q.llCode);
    var st := States(c.ml.First(q.mlCode), c.off.First(q.ofCode), c.ll.First(q.llCode), Extra(Empty, q));
    ExtraBack(c, d, Down(c, st), Empty, q);
  }

  /** Every sequence comes back with its codes and its extra bits, and the stream is
      then at its end. */
  lemma RoundTrip(c: Coders, d: Decoders, seqs: seq<Sequence>)
    requires MatchAll(c, d) && c.CodesAll(seqs) && |seqs| > 0
    ensures c.Ok() && d.Ok() && Decoded(d, Left(Encoded(c, seqs)), |seqs|) == Ok(SentAll(c, seqs))
  {
    hide Pow2, IsCTable, IsDTable, ValidNorm, DecodeFrom, EncodeFrom, Rest.Value, Rest.After, Low;
    var st := EncodeFrom(c, seqs, 0);
    DecodeEncoded(c, d, seqs, 0, []);
    assert [] + SentAll(c, seqs)[0..] == SentAll(c, seqs);
    var s1 := st.bits.PushLow(st.ml, c.ml.tableLog);
    var s2 := s1.PushLow(st.off, c.off.tableLog);
    StateBack(st.bits, st.ml, c.ml.tableLog);
    StateBack(s1, st.off, c.off.tableLog);
    StateBack(s2, st.ll, c.ll.tableLog);
  }

  lemma StateBack(bits: Stack, x: nat, tableLog: nat)
    requires bits.Ok() && FseCodec.StateOf(x, tableLog)
    ensures Left(bits.PushLow(x, tableLog)).Value(tableLog) == Cell(x, tableLog)
    ensures Left(bits.PushLow(x, tableLog)).After(tableLog) == Left(bits)
  {
    hide Pow2;
    PushLowBack(bits, x, tableLog);
    if tableLog > 0 { FseCodec.StateLow(x, tableLog); }
  }

  // ----- the order of the fields -----

  /** The states name the three codes of their sequence. */
  lemma StatesName(c: Coders, d: Decoders, seqs: seq<Sequence>, i: nat)
    requires MatchAll(c, d) && c.CodesAll(seqs) && i < |seqs|
    ensures var y := Down(c, EncodeFrom(c, seqs, i));
      && d.Has(y) && d.ll.Symbol(y.ll) == seqs[i].llCode && d.off.Symbol(y.off) == seqs[i].ofCode
      && d.ml.Symbol(y.ml) == seqs[i].mlCode
  {
    hide Pow2, IsCTable, IsDTable, ValidNorm, EncodeFrom, Extra, Coder.First, Coder.Next, Coder.Shed, Decoder.Symbol,
         Decoder.Next, Decoder.NbBits, Rest.Value, Rest.After;
    var q := seqs[i];
    assert c.Codes(q);
    if i == |seqs| - 1 {
      EncodeLast(c, seqs);
      FirstBack(c.ml, d.ml, q.mlCode);
      FirstBack(c.off, d.off, q.ofCode);
      FirstBack(c.ll, d.ll, q.llCode);
    } else {
      EncodeNext(c, seqs, i);
      var st := EncodeFrom(c, seqs, i + 1);
      StepBack(c.off, d.off, q.ofCode, st.off, Empty);
      StepBack(c.ml, d.ml, q.mlCode, st.ml, Empty);
      StepBack(c.ll, d.ll, q.llCode, st.ll, Empty);
    }
  }

  /** What a reader meets first: the states of literal lengths, offsets and match lengths,
      in this order. */
  lemma StatesFirst(c: Coders, d: Decoders, seqs: seq<Sequence>)
    requires MatchAll(c, d) && c.CodesAll(seqs) && |seqs| > 0
    ensures var b := Left(Encoded(c, seqs)); var b1 := b.After(d.ll.tableLog); var b2 := b1.After(d.off.tableLog);
      && d.ll.Symbol(b.Value(d.ll.tableLog)) == seqs[0].llCode && d.off.Symbol(b1.Value(d.off.tableLog)) == seqs[0].ofCode
      && d.ml.Symbol(b2.Value(d.ml.tableLog)) == seqs[0].mlCode
      && b2.After(d.ml.tableLog) == Left(EncodeFrom(c, seqs, 0).bits)
  {
    hide Pow2, IsCTable, IsDTable, ValidNorm, EncodeFrom, Rest.Value, Rest.After, Low, Decoder.Symbol;
    StatesName(c, d, seqs, 0);
    var st := EncodeFrom(c, seqs, 0);
    var s1 := st.bits.PushLow(st.ml, c.ml.tableLog);
    StateBack(st.bits, st.ml, c.ml.tableLog);
    StateBack(s1, st.off, c.off.tableLog);
    StateBack(s1.PushLow(st.off, c.off.tableLog), st.ll, c.ll.tableLog);
  }

  /** Then, for each sequence, the bits of the offset, the match length and the literal
      length; and if there is another, those that lead to its literal length, its match
      length and its offset. */
  lemma FieldsInOrder(c: Coders, d: Decoders, seqs: seq<Sequence>, i: nat)
    requires MatchAll(c, d) && c.CodesAll(seqs) && i < |seqs|
    ensures var q, st := seqs[i], EncodeFrom(c, seqs, i); var y := Down(c, st);
      var b := Left(st.bits); var b1 := b.After(q.ofCode); var b2 := b1.After(ML_BITS[q.mlCode]);
      var b3 := b2.After(LL_BITS[q.llCode]);
      && b.Value(q.ofCode) == Low(q.offBase, q.ofCode) && b1.Value(ML_BITS[q.mlCode]) == Low(q.mlBase, ML_BITS[q.mlCode])
      && b2.Value(LL_BITS[q.llCode]) == Low(q.litLength, LL_BITS[q.llCode])
      && d.Has(y)
      && (i + 1 < |seqs| ==>
            var b4 := b3.After(d.ll.NbBits(y.ll)); var b5 := b4.After(d.ml.NbBits(y.ml));
            && d.ll.Symbol(d.ll.Next(y.ll, b3.Value(d.ll.NbBits(y.ll)))) == seqs[i + 1].llCode
            && d.ml.Symbol(d.ml.Next(y.ml, b4.Value(d.ml.NbBits(y.ml)))) == seqs[i + 1].mlCode
            && d.off.Symbol(d.off.Next(y.off, b5.Value(d.off.NbBits(y.off)))) == seqs[i + 1].ofCode
            && b5.After(d.off.NbBits(y.off)) == Left(EncodeFrom(c, seqs, i + 1).bits))
  {
    hide Pow2, Low, IsCTable, IsDTable, ValidNorm, Rest.Value, Rest.After, Coder.First, Coder.Next, Coder.Shed, Decoder.Next,
         Decoder.Symbol, Decoder.NbBits, EncodeFrom, NbBitsOut;
    var q := seqs[i];
    assert c.Codes(q);
    StatesName(c, d, seqs, i);
    if i == |seqs| - 1 {
      EncodeLast(c, seqs);
      ExtraOrder(Empty, q);
    } else {
      EncodeNext(c, seqs, i);
      var st := EncodeFrom(c, seqs, i + 1);
      StatesName(c, d, seqs, i + 1);
      var s1 := c.off.Shed(st.bits, q.ofCode, st.off);
      var s2 := c.ml.Shed(s1, q.mlCode, st.ml);
      StepBack(c.off, d.off, q.ofCode, st.off, st.bits);
      StepBack(c.ml, d.ml, q.mlCode, st.ml, s1);
      StepBack(c.ll, d.ll, q.llCode, st.ll, s2);
      ExtraOrder(c.ll.Shed(s2, q.llCode, st.ll), q);
    }
  }

  lemma ExtraOrder(bits: Stack, q: Sequence)
    requires bits.Ok() && q.llCode < |LL_BITS| && q.mlCode < |ML_BITS|
    ensures var b := Left(Extra(bits, q)); var b1 := b.After(q.ofCode); var b2 := b1.After(ML_BITS[q.mlCode]);
      && b.Value(q.ofCode) == Low(q.offBase, q.ofCode) && b1.Value(ML_BITS[q.mlCode]) == Low(q.mlBase, ML_BITS[q.mlCode])
      && b2.Value(LL_BITS[q.llCode]) == Low(q.litLength, LL_BITS[q.llCode])
      && b2.After(LL_BITS[q.llCode]) == Left(bits)
  {
    hide Low, Pow2, Rest.Value, Rest.After;
    var s1 := bits.PushLow(q.litLength, LL_BITS[q.llCode]);
    var s2 := s1.PushLow(q.mlBase, ML_BITS[q.mlCode]);
    PushLowBack(bits, q.litLength, LL_BITS[q.llCode]);
    PushLowBack(s1, q.mlBase, ML_BITS[q.mlCode]);
    PushLowBack(s2, q.offBase, q.ofCode);
  }

  // ----- the decoder -----

  ghost function RestOf(bitD: DStream): (b: Rest)
    requires bitD.Valid()
    reads bitD
    ensures b.Ok()
  {
    if bitD.Over() then Gone else Left(bitD.Unread())
  }

  /** The register holds enough for the reads between two reloads. */
  ghost predicate Loaded(bitD: DStream, bits: nat)
    reads bitD
  {
    bitD.Valid() && (!bitD.Over() ==> bitD.bitsConsumed + bits <= 64 || bitD.ptr == 0)
  }

  /** `BIT_readBits` or `BIT_readBitsFast`; the fast form is not used for no bits. */
  method Read(bitD: DStream, n: nat, fast: bool, ghost spare: nat) returns (v: nat)
    requires n < 32 && Loaded(bitD, n + spare) && bitD.bitsConsumed < DStream.MANY && (fast ==> n > 0)
    modifies bitD`bitsConsumed
    ensures v < Pow2(n) && Loaded(bitD, spare) && bitD.bitsConsumed == old(bitD.bitsConsumed) + n
    ensures RestOf(bitD) == old(RestOf(bitD)).After(n)
    ensures RestOf(bitD).Left? ==> v == old(RestOf(bitD)).Value(n)
  {
    hide Low, Shr, Shl, Pow2;
    if fast { v := bitD.ReadBitsFast(n); } else { v := bitD.ReadBits(n); }
  }

  /** Extra bits: none are read where the code asks for none. */
  method ReadExtra(bitD: DStream, n: nat, ghost spare: nat) returns (v: nat)
    requires n < 32 && Loaded(bitD, n + spare) && bitD.bitsConsumed < DStream.MANY
    modifies bitD`bitsConsumed
    ensures v < Pow2(n) && Loaded(bitD, spare) && bitD.bitsConsumed == old(bitD.bitsConsumed) + n
    ensures RestOf(bitD) == old(RestOf(bitD)).After(n)
    ensures RestOf(bitD).Left? ==> v == old(RestOf(bitD)).Value(n)
  {
    hide Low, Shr, Shl;
    v := 0;
    if n > 0 {
      v := Read(bitD, n, true, spare);
    } else {
      NothingRead(RestOf(bitD));
    }
  }

  lemma NothingRead(b: Rest)
    requires b.Ok()
    ensures b.After(0) == b && b.Value(0) == 0
  {
    if b.Left? {
      DStream.TopNone(b.s);
      LowSmall(b.s.val, b.s.len);
    }
  }

  /** `BIT_reloadDStream`. */
  method Refill(bitD: DStream)
    requires bitD.Valid()
    modifies bitD
    ensures Loaded(bitD, 57) && RestOf(bitD) == old(RestOf(bitD)) && bitD.bitsConsumed <= Max(old(bitD.bitsConsumed), 64)
  {
    hide Low, Shr, Shl, Pow2;
    var _ := bitD.Reload();
  }

  /** The raw bits of one sequence. */
  method DecodeExtra(bitD: DStream, mlCode: Byte, ofCode: Byte, llCode: Byte) returns (q: Sequence)
    requires mlCode < |ML_BITS| && ofCode <= MAX_OFF && llCode < |LL_BITS|
    requires Loaded(bitD, 57) && bitD.bitsConsumed < DStream.MANY - 200
    modifies bitD
    ensures Loaded(bitD, ML_FSE_LOG + LL_FSE_LOG + OFF_FSE_LOG) && Carried(q)
    ensures bitD.bitsConsumed <= Max(old(bitD.bitsConsumed), 64) + 64
    ensures var b := old(RestOf(bitD)); var b1 := b.After(ofCode); var b2 := b1.After(ML_BITS[mlCode]);
      && RestOf(bitD) == b2.After(LL_BITS[llCode])
      && (RestOf(bitD).Left? ==>
            q == Sequence(b2.Value(LL_BITS[llCode]), b1.Value(ML_BITS[mlCode]), b.Value(ofCode), llCode, mlCode, ofCode))
  {
    hide Pow2, Low, Shr, Shl, Rest.Value;
    var llBits, mlBits, ofBits := LL_BITS[llCode], ML_BITS[mlCode], ofCode;
    var offset := ReadExtra(bitD, ofBits, 57 - ofBits);
    var matchLength := ReadExtra(bitD, mlBits, 57 - ofBits - mlBits);
    if llBits + mlBits + ofBits >= STREAM_ACCUMULATOR_MIN - (LL_FSE_LOG + ML_FSE_LOG + OFF_FSE_LOG) { Refill(bitD); }
    var litLength := ReadExtra(bitD, llBits, ML_FSE_LOG + LL_FSE_LOG + OFF_FSE_LOG);
    q := Sequence(litLength, matchLength, offset, llCode, mlCode, ofCode);
  }

  /** `ZSTD_updateFseStateWithDInfo`. */
  method Update(bitD: DStream, dt: DTable, u: nat, ghost d: Decoder, ghost spare: nat) returns (v: nat)
    requires d.Has(u) && d.dt == dt && Loaded(bitD, d.tableLog + spare) && bitD.bitsConsumed < DStream.MANY
    modifies bitD`bitsConsumed
    ensures d.Has(v) && Loaded(bitD, spare) && bitD.bitsConsumed <= old(bitD.bitsConsumed) + d.tableLog
    ensures RestOf(bitD) == old(RestOf(bitD)).After(d.NbBits(u))
    ensures RestOf(bitD).Left? ==> v == d.Next(u, old(RestOf(bitD)).Value(d.NbBits(u)))
  {
    hide Low, Shr, Shl, IsDTable, Cum, Pow2;
    Pow2Values();
    ghost var nb := d.NbBits(u);
    var lowBits := Read(bitD, dt.entries[u].nbBits, false, d.tableLog + spare - nb);
    if d.tableLog > 0 { DecodeInRange(dt, d.norm, d.tableLog, u, lowBits); }
    v := dt.entries[u].newState + lowBits;
  }

  /** The bits that one sequence can count: a few reads between reloads. */
  const ROUND := 200

  /** The reads of `ZSTD_decodeSequence`. */
  method DecodeSequence(bitD: DStream, mlTable: DTable, offTable: DTable, llTable: DTable, st: DStates, isLast: bool,
                        ghost d: Decoders) returns (q: Sequence, next: DStates)
    requires d.Has(st) && d.ml.dt == mlTable && d.off.dt == offTable && d.ll.dt == llTable
    requires Loaded(bitD, 57) && bitD.bitsConsumed < DStream.MANY - ROUND
    modifies bitD
    ensures bitD.Valid() && d.Has(next) && bitD.bitsConsumed <= Max(old(bitD.bitsConsumed), 64) + ROUND
    ensures Carried(q) && (!isLast ==> Loaded(bitD, 57))
    ensures var (q1, b1) := GetExtra(d, st, old(RestOf(bitD)));
      && RestOf(bitD) == (if isLast then b1 else Advance(d, st, b1).1)
      && (RestOf(bitD).Left? ==> q == q1 && (!isLast ==> next == Advance(d, st, b1).0))
  {
    hide Low, Shr, Shl, IsDTable, ValidNorm, Rest.Value, Rest.After, Pow2, Cum;
    Codes(d, st);
    ghost var b := RestOf(bitD);
    q := DecodeExtra(bitD, mlTable.entries[st.ml].symbol, offTable.entries[st.off].symbol, llTable.entries[st.ll].symbol);
    next := st;
    if !isLast {
      ghost var b1 := RestOf(bitD);
      GoneAfter(b1, d.ll.NbBits(st.ll));
      GoneAfter(b1.After(d.ll.NbBits(st.ll)), d.ml.NbBits(st.ml));
      GoneAfter(b1.After(d.ll.NbBits(st.ll)).After(d.ml.NbBits(st.ml)), d.off.NbBits(st.off));
      var ll := Update(bitD, llTable, st.ll, d.ll, ML_FSE_LOG + OFF_FSE_LOG);
      var ml := Update(bitD, mlTable, st.ml, d.ml, OFF_FSE_LOG);
      var off := Update(bitD, offTable, st.off, d.off, 0);
      next := DStates(ml, off, ll);
      Refill(bitD);
    }
  }

  lemma Codes(d: Decoders, st: DStates)
    requires d.Has(st)
    ensures st.ml < |d.ml.dt.entries| && st.off < |d.off.dt.entries| && st.ll < |d.ll.dt.entries|
    ensures d.ml.dt.entries[st.ml].symbol == d.ml.Symbol(st.ml) < |ML_BITS|
    ensures d.off.dt.entries[st.off].symbol == d.off.Symbol(st.off) <= MAX_OFF
    ensures d.ll.dt.entries[st.ll].symbol == d.ll.Symbol(st.ll) < |LL_BITS|
  {
    hide IsDTable, Cum;
  }

  /** What is gone stays gone. */
  lemma GoneStays(d: Decoders, st: DStates, b: Rest)
    requires d.Has(st) && b.Ok()
    ensures b.Gone? ==> GetExtra(d, st, b).1.Gone? && Advance(d, st, b).1.Gone?
  {
    hide Pow2, IsDTable, ValidNorm, Decoder.Symbol, Decoder.NbBits, Decoder.Next;
  }

  lemma {:induction false} GoneFails(d: Decoders, st: DStates, n: nat, done: seq<Sequence>)
    requires d.Has(st) && n > 0
    ensures DecodeFrom(d, st, Gone, n, done) == Err(CorruptionDetected)
    decreases n
  {
    hide Pow2, GetExtra, Advance, IsDTable, ValidNorm;
    GoneStays(d, st, Gone);
    if n > 1 {
      var (q, b1) := GetExtra(d, st, Gone);
      var (next, b2) := Advance(d, st, b1);
      GoneStays(d, st, b1);
      GoneFails(d, next, n - 1, done + [q]);
    }
  }

  /** One turn of the decoding loop against the reference. */
  lemma TurnSame(d: Decoders, st: DStates, b: Rest, n: nat, done: seq<Sequence>, q: Sequence, next: DStates, after: Rest)
    requires d.Has(st) && d.Has(next) && b.Ok() && after.Ok() && n > 1
    requires var (q1, b1) := GetExtra(d, st, b);
      after == Advance(d, st, b1).1 && (after.Left? ==> q == q1 && next == Advance(d, st, b1).0)
    ensures DecodeFrom(d, st, b, n, done) == DecodeFrom(d, next, after, n - 1, done + [q])
  {
    hide Pow2, GetExtra, Advance, IsDTable, ValidNorm;
    if after.Gone? {
      var (q1, b1) := GetExtra(d, st, b);
      GoneFails(d, Advance(d, st, b1).0, n - 1, done + [q1]);
      GoneFails(d, next, n - 1, done + [q]);
    }
  }

  lemma LastTurn(d: Decoders, st: DStates, b: Rest, done: seq<Sequence>)
    requires d.Has(st) && b.Ok()
    ensures var (q1, b1) := GetExtra(d, st, b); DecodeFrom(d, st, b, 1, done) == Closed(b1, done + [q1])
  {
    hide GetExtra, Advance;
  }

  /** `ZSTD_initFseState`. */
  method InitState(bitD: DStream, dt: DTable, ghost d: Decoder) returns (u: nat)
    requires d.Ok() && d.dt == dt && d.tableLog <= 9 && Loaded(bitD, d.tableLog) && bitD.bitsConsumed < 300
    modifies bitD
    ensures d.Has(u) && Loaded(bitD, 57) && bitD.bitsConsumed <= Max(old(bitD.bitsConsumed) + 9, 64)
    ensures RestOf(bitD) == old(RestOf(bitD)).After(d.tableLog)
    ensures RestOf(bitD).Left? ==> u == old(RestOf(bitD)).Value(d.tableLog)
  {
    hide Low, Shr, Shl, IsDTable, ValidNorm, Pow2, Rest.Value, Rest.After;
    u := Read(bitD, dt.tableLog, false, 0);
    Refill(bitD);
  }

  method StartStates(bitD: DStream, mlTable: DTable, offTable: DTable, llTable: DTable, ghost nbSeq: nat, ghost d: Decoders)
    returns (st: DStates)
    requires d.Ok() && d.ml.dt == mlTable && d.off.dt == offTable && d.ll.dt == llTable && nbSeq > 0
    requires Loaded(bitD, 9) && bitD.bitsConsumed <= 72 && !bitD.Over()
    modifies bitD
    ensures d.Has(st) && Loaded(bitD, 57) && bitD.bitsConsumed <= 400
    ensures DecodeFrom(d, st, RestOf(bitD), nbSeq, []) == Decoded(d, old(RestOf(bitD)), nbSeq)
  {
    hide Low, Shr, Shl, IsDTable, ValidNorm, Pow2, Rest.Value, Rest.After, DecodeFrom;
    ghost var b := RestOf(bitD);
    var ll := InitState(bitD, llTable, d.ll);
    var off := InitState(bitD, offTable, d.off);
    var ml := InitState(bitD, mlTable, d.ml);
    st := DStates(ml, off, ll);
    ghost var b1 := b.After(d.ll.tableLog);
    ghost var b2 := b1.After(d.off.tableLog);
    GoneAfter(b, d.ll.tableLog);
    GoneAfter(b1, d.off.tableLog);
    GoneAfter(b2, d.ml.tableLog);
    if RestOf(bitD).Gone? {
      GoneFails(d, st, nbSeq, []);
      GoneFails(d, DStates(b2.Value(d.ml.tableLog), b1.Value(d.off.tableLog), b.Value(d.ll.tableLog)), nbSeq, []);
    }
  }

  lemma GoneAfter(b: Rest, n: nat)
    requires b.Ok()
    ensures b.Gone? ==> b.After(n).Gone?
  {}

  /** The values of `ZSTD_decodeSequence`: bases and raw bits, and the offset from the
      history. */
  method Compute(prevOffset: array<nat>, q: Sequence) returns (v: Value)
    requires prevOffset.Length == ZSTD_REP_NUM && Carried(q)
    modifies prevOffset
    ensures (v, RepsOf(prevOffset)) == Resolve(q, old(RepsOf(prevOffset)))
  {
    Pow2Values();
    var offset;
    if q.ofCode > 1 {
      offset := OF_BASE[q.ofCode] + q.offBase;
      prevOffset[2] := prevOffset[1];
      prevOffset[1] := prevOffset[0];
      prevOffset[0] := offset;
    } else {
      var ll0 := if LL_BASE[q.llCode] == 0 then 1 else 0;
      if q.ofCode == 0 {
        offset := prevOffset[ll0];
        prevOffset[1] := prevOffset[1 - ll0];
        prevOffset[0] := offset;
      } else {
        offset := OF_BASE[q.ofCode] + ll0 + q.offBase;
        var temp := if offset == 3 then (prevOffset[0] + 0xFFFF_FFFF_FFFF_FFFF) % 0x1_0000_0000_0000_0000 else prevOffset[offset];
        if temp == 0 { temp := 0xFFFF_FFFF_FFFF_FFFF; }
        if offset != 1 { prevOffset[2] := prevOffset[1]; }
        prevOffset[1] := prevOffset[0];
        offset := temp;
        prevOffset[0] := offset;
      }
    }
    v := Value(LL_BASE[q.llCode] + q.litLength, ML_BASE[q.mlCode] + q.mlBase, offset);
  }

  /** `LONGNBSEQ` and two bytes: no block has more sequences. */
  const MAX_SEQUENCES := 0x7F00 + 0xFFFF

  /** `r` are the values of the sequences that `goal` has read, and `after` the history
      they leave. */
  ghost predicate Executes(r: Result<seq<Value>>, goal: Result<seq<Sequence>>, before: Reps, after: Reps)
  {
    match goal
    case Err(e) => r == Err(e)
    case Ok(qs) => CarriedAll(qs) && r == Ok(ResolveAll(qs, before).0) && after == ResolveAll(qs, before).1
  }

  /** What the reference reader makes of a source. */
  ghost function Section(src: seq<Byte>, d: Decoders, n: nat): Result<seq<Sequence>>
    requires d.Ok() && n > 0
  {
    if |src| > 0 && src[|src| - 1] > 0 then Decoded(d, Left(Opened(src)), n) else Err(CorruptionDetected)
  }

  lemma ResolveMore(qs: seq<Sequence>, q: Sequence, before: Reps)
    requires CarriedAll(qs) && Carried(q)
    ensures CarriedAll(qs + [q])
    ensures var (vs, reps) := ResolveAll(qs, before); var (v, after) := Resolve(q, reps);
            ResolveAll(qs + [q], before) == (vs + [v], after)
  {
    hide Carried, Resolve;
    assert (qs + [q])[..|qs|] == qs;
  }

  /** The decoding loop of the sequence section: on every source, what the reference
      reader gives, and its values. */
  method DecodeSequences(src: seq<Byte>, mlTable: DTable, offTable: DTable, llTable: DTable, nbSeq: nat,
                         prevOffset: array<nat>, ghost d: Decoders) returns (r: Result<seq<Value>>)
    requires d.Ok() && d.ml.dt == mlTable && d.off.dt == offTable && d.ll.dt == llTable && 0 < nbSeq <= MAX_SEQUENCES
    requires prevOffset.Length == ZSTD_REP_NUM
    modifies prevOffset
    ensures Executes(r, Section(src, d, nbSeq), old(RepsOf(prevOffset)), RepsOf(prevOffset))
  {
    hide Low, Shr, Shl, IsDTable, ValidNorm, Rest.Value, Rest.After, Pow2, DecodeFrom, GetExtra, Advance, Cum, Carried, CarriedAll,
         Resolve, ResolveAll;
    var opened_ := InitDStream(src);
    if opened_.Err? { return Err(CorruptionDetected); }
    var bitD := opened_.value;
    var st := StartStates(bitD, mlTable, offTable, llTable, nbSeq, d);
    var n, vs := nbSeq, [];
    ghost var seqs, reps := [], RepsOf(prevOffset);
    ghost var goal := Decoded(d, Left(Opened(src)), nbSeq);
    NoSequences(reps);
    while n > 1
      invariant 1 <= n <= nbSeq && d.Has(st) && fresh(bitD) && Loaded(bitD, 57)
      invariant bitD.bitsConsumed <= 400 + ROUND * (nbSeq - n)
      invariant goal == DecodeFrom(d, st, RestOf(bitD), n, seqs)
      invariant CarriedAll(seqs) && (vs, RepsOf(prevOffset)) == ResolveAll(seqs, reps)
    {
      ghost var b := RestOf(bitD);
      var q, next := DecodeSequence(bitD, mlTable, offTable, llTable, st, false, d);
      TurnSame(d, st, b, n, seqs, q, next, RestOf(bitD));
      ResolveMore(seqs, q, reps);
      var v := Compute(prevOffset, q);
      n, st, vs, seqs := n - 1, next, vs + [v], seqs + [q];
    }
    LastTurn(d, st, RestOf(bitD), seqs);
    var q, _ := DecodeSequence(bitD, mlTable, offTable, llTable, st, true, d);
    ResolveMore(seqs, q, reps);
    var v := Compute(prevOffset, q);
    var end := bitD.EndOfDStream();
    if !end { return Err(CorruptionDetected); }
    return Ok(vs + [v]);
  }

  lemma NoSequences(reps: Reps)
    ensures CarriedAll([]) && ResolveAll([], reps) == ([], reps)
  {}

  /** A sealed section is read back: codes, and fields cut to the widths of their codes. */
  lemma StreamRoundTrip(c: Coders, d: Decoders, seqs: seq<Sequence>, bytes: seq<Byte>)
    requires MatchAll(c, d) && c.CodesAll(seqs) && |seqs| > 0 && Sealed(bytes, Encoded(c, seqs))
    ensures |bytes| > 0 && bytes[|bytes| - 1] > 0
    ensures Decoded(d, Left(Opened(bytes)), |seqs|) == Ok(SentAll(c, seqs))
    ensures (forall i :: 0 <= i < |seqs| ==> Fits(seqs[i])) ==> SentAll(c, seqs) == seqs
  {
    hide Sealed, Decoded, Encoded, Opened, Sent, Fits;
    OpenSealed(bytes, Encoded(c, seqs));
    RoundTrip(c, d, seqs);
    forall i | 0 <= i < |seqs| && Fits(seqs[i]) ensures Sent(seqs[i]) == seqs[i] { SentWhole(seqs[i]); }
  }

  /** `bytes` are the sealed section of the stored sequences. */
  ghost predicate Stores(bytes: seq<Byte>, c: Coders, ss: seq<Stored>)
  {
    && |ss| > 0 && (forall i :: 0 <= i < |ss| ==> Storable(ss[i]))
    && c.Ok() && c.CodesAll(CodedAll(ss)) && Sealed(bytes, Encoded(c, CodedAll(ss)))
  }

  /** So a decoder with the encoder's tables and history executes the lengths and offsets
      that were stored, and is left with the encoder's history. */
  lemma ValuesRoundTrip(c: Coders, d: Decoders, ss: seq<Stored>, bytes: seq<Byte>, reps: Reps, r: Result<seq<Value>>, after: Reps)
    requires MatchAll(c, d) && Stores(bytes, c, ss)
    requires reps.Sane() && forall v :: v in MeantAll(ss, reps).0 ==> v.offset != 0
    requires Executes(r, Section(bytes, d, |ss|), reps, after)
    ensures (r, after) == (Ok(MeantAll(ss, reps).0), MeantAll(ss, reps).1)
  {
    hide Sealed, Decoded, Encoded, Opened, Sent, Coded, Storable, ResolveAll, MeantAll, CarriedAll;
    StreamRoundTrip(c, d, CodedAll(ss), bytes);
    assert SentAll(c, CodedAll(ss)) == SentCodes(ss);
    ResolveAllBack(ss, reps);
  }
}
