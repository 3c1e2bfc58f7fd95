/** From lengths and offsets to codes and extra bits, and back: `ZSTD_LLcode`,
    `ZSTD_MLcode`, the base values of the decoder, and the history of repeated offsets
    that both sides keep (section 3.1.1.5 of RFC 8878). */
module SeqValues {
  import opened Bits
  import opened Sequences

  /** The codes of lengths below 64 and 128: single lengths first, then runs. */
  const LL_CODE: seq<nat> := From(0, 16) + [16, 16, 17, 17, 18, 18, 19, 19, 20, 20, 20, 20, 21, 21, 21, 21] + Run(22, 8) + Run(23, 8) + Run(24, 16)

  const ML_CODE: seq<nat> := From(0, 32) + [32, 32, 33, 33, 34, 34, 35, 35, 36, 36, 36, 36, 37, 37, 37, 37]
                             + Run(38, 8) + Run(39, 8) + Run(40, 16) + Run(41, 16) + Run(42, 32)

  function From(first: nat, n: nat): (r: seq<nat>)
    ensures |r| == n && forall i :: 0 <= i < n ==> r[i] == first + i
  {
    seq(n, i => first + i)
  }

  function Run(code: nat, n: nat): (r: seq<nat>)
    ensures |r| == n && forall i :: 0 <= i < n ==> r[i] == code
  {
    seq(n, _ => code)
  }

  const LL_BASE: seq<nat> := [
    0, 1, 2, 3, 4, 5, 6, 7,
    8, 9, 10, 11, 12, 13, 14, 15,
    16, 18, 20, 22, 24, 28, 32, 40,
    48, 64, 0x80, 0x100, 0x200, 0x400, 0x800, 0x1000,
    0x2000, 0x4000, 0x8000, 0x1_0000
  ]

  const ML_BASE: seq<nat> := From(3, 32) + [
    35, 37, 39, 41, 43, 47, 51, 59,
    67, 83, 99, 0x83, 0x103, 0x203, 0x403, 0x803,
    0x1003, 0x2003, 0x4003, 0x8003, 0x1_0003
  ]

  const OF_BASE: seq<nat> := [
    0, 1, 1, 5, 0xD, 0x1D, 0x3D, 0x7D,
    0xFD, 0x1FD, 0x3FD, 0x7FD, 0xFFD, 0x1FFD, 0x3FFD, 0x7FFD,
    0xFFFD, 0x1_FFFD, 0x3_FFFD, 0x7_FFFD, 0xF_FFFD, 0x1F_FFFD, 0x3F_FFFD, 0x7F_FFFD,
    0xFF_FFFD, 0x1FF_FFFD, 0x3FF_FFFD, 0x7FF_FFFD, 0xFFF_FFFD, 0x1FFF_FFFD, 0x3FFF_FFFD, 0x7FFF_FFFD
  ]

  /** Lengths of a block of 128 KB; the codes of those from 64 KB on are given apart. */
  const LENGTHS := 0x2_0000

  function LLCode(litLength: nat): nat { if litLength > 63 then Highbit(litLength) + 19 else LL_CODE[litLength] }

  function MLCode(mlBase: nat): nat { if mlBase > 127 then Highbit(mlBase) + 36 else ML_CODE[mlBase] }

  // ----- lengths -----

  lemma LLTable(l: nat)
    requires l < 64
    ensures LL_CODE[l] == if l < 16 then l else if l < 24 then 16 + (l - 16) / 2 else if l < 32 then 20 + (l - 24) / 4
                          else if l < 48 then 22 + (l - 32) / 8 else 24
  {}

  lemma LLBases(c: nat)
    requires c < |LL_BITS|
    ensures (LL_BASE[c], LL_BITS[c]) ==
      if c < 16 then (c, 0) else if c < 20 then (16 + 2 * (c - 16), 1) else if c < 22 then (24 + 4 * (c - 20), 2)
      else if c < 24 then (32 + 8 * (c - 22), 3) else if c == 24 then (48, 4) else (LL_BASE[c], c - 19)
  {}

  lemma MLTable(m: nat)
    requires m < 128
    ensures ML_CODE[m] == if m < 32 then m else if m < 40 then 32 + (m - 32) / 2 else if m < 48 then 36 + (m - 40) / 4
                          else if m < 64 then 38 + (m - 48) / 8 else if m < 96 then 40 + (m - 64) / 16 else 42
  {}

  lemma MLShort(c: nat)
    requires c < 32
    ensures ML_BASE[c] == c + 3 && ML_BITS[c] == 0
  {}

  lemma MLBases(c: nat)
    requires 32 <= c < |ML_BITS|
    ensures ML_BASE[c] >= 3 && (ML_BASE[c] - 3, ML_BITS[c]) ==
      if c < 36 then (32 + 2 * (c - 32), 1) else if c < 38 then (40 + 4 * (c - 36), 2)
      else if c < 40 then (48 + 8 * (c - 38), 3) else if c < 42 then (64 + 16 * (c - 40), 4)
      else if c == 42 then (96, 5) else (ML_BASE[c] - 3, c - 36)
  {}

  lemma LowBits(v: nat)
    ensures Low(v, 0) == 0 && Low(v, 1) == v % 2 && Low(v, 2) == v % 4 && Low(v, 3) == v % 8 && Low(v, 4) == v % 16
    ensures Low(v, 5) == v % 32
  {
    hide Low, Pow2;
    Pow2Values();
    LowIsMod(v, 0);
    LowIsMod(v, 1);
    LowIsMod(v, 2);
    LowIsMod(v, 3);
    LowIsMod(v, 4);
    LowIsMod(v, 5);
  }

  /** Above the tables a base is the highest bit. */
  lemma HighBase(v: nat, h: nat)
    requires v > 0 && h == Highbit(v)
    ensures Pow2(h) + Low(v, h) == v < 2 * Pow2(h)
  {
    hide Low, Shl, Shr, Pow2;
    HighbitBounds(v);
    Pow2Next(h);
    ShlOne(h);
    Join(v - Pow2(h), 1, h);
  }

  lemma HighLimit(v: nat, h: nat, low: nat)
    requires v > 0 && h == Highbit(v) && Pow2(low) <= v < LENGTHS
    ensures low <= h <= 16
  {
    hide Pow2, Highbit;
    HighbitBounds(v);
    Pow2Values();
    Pow2Next(16);
    if h < low { Pow2Mono(h + 1, low); }
    if h > 16 { Pow2Mono(17, h); }
  }

  /** The code of a length and the bits it asks for give the length back. */
  lemma LitLengthBack(l: nat)
    requires l < LENGTHS
    ensures LLCode(l) < |LL_BITS| && LL_BASE[LLCode(l)] + Low(l, LL_BITS[LLCode(l)]) == l
    ensures LL_BASE[LLCode(l)] == 0 <==> l == 0
  {
    hide Low, Pow2;
    LowBits(l);
    if l < 64 {
      LLTable(l);
      LLBases(LLCode(l));
    } else {
      var h := Highbit(l);
      Pow2Values();
      HighLimit(l, h, 6);
      HighBase(l, h);
      LLBases(h + 19);
      PowerBases(h);
    }
  }

  lemma PowerBases(h: nat)
    requires 6 <= h <= 16
    ensures LL_BASE[h + 19] == Pow2(h) && (h >= 7 ==> ML_BASE[h + 36] == Pow2(h) + 3)
  {
    hide Pow2;
    Pow2Values();
    Pow2Next(13);
  }

  lemma MatchLengthBack(m: nat)
    requires m < LENGTHS
    ensures MLCode(m) < |ML_BITS| && ML_BASE[MLCode(m)] + Low(m, ML_BITS[MLCode(m)]) == m + 3
  {
    hide Low, Pow2;
    LowBits(m);
    if m < 128 {
      MLTable(m);
      if m < 32 { MLShort(m); } else { MLBases(MLCode(m)); }
    } else {
      var h := Highbit(m);
      Pow2Values();
      HighLimit(m, h, 7);
      HighBase(m, h);
      MLBases(h + 36);
      PowerBases(h);
    }
  }

  // ----- offsets -----

  const ZSTD_REP_NUM := 3

  /** The three offsets used last. */
  datatype Reps = Reps(r0: nat, r1: nat, r2: nat) {
    function At(i: nat): nat
      requires i < ZSTD_REP_NUM
    {
      if i == 0 then r0 else if i == 1 then r1 else r2
    }

    predicate Sane() { 0 < r0 < 0x1_0000_0000 && 0 < r1 < 0x1_0000_0000 && 0 < r2 < 0x1_0000_0000 }
  }

  /** `ZSTD_updateRep`, on the encoder's side: `offBase` is 1 to 3 for a repeated offset,
      and otherwise the offset plus 3.  The new `r0` is the offset meant. */
  function UpdateRep(reps: Reps, offBase: nat, ll0: nat): Reps
    requires offBase > 0 && ll0 <= 1
  {
    if offBase > ZSTD_REP_NUM then Reps(offBase - ZSTD_REP_NUM, reps.r0, reps.r1)
    else
      var repCode := offBase - 1 + ll0;
      if repCode > 0 then
        var currentOffset := if repCode == ZSTD_REP_NUM then (reps.r0 + 0xFFFF_FFFF) % 0x1_0000_0000 else reps.At(repCode);
        Reps(currentOffset, reps.r0, if repCode >= 2 then reps.r1 else reps.r2)
      else reps
  }

  /** The history with entry `k` moved to the front, */
  function ToFront(reps: Reps, k: nat): (r: Reps)
    requires k < ZSTD_REP_NUM
    ensures r.r0 == reps.At(k)
    ensures multiset{r.r0, r.r1, r.r2} == multiset{reps.r0, reps.r1, reps.r2}
  {
    if k == 0 then reps else if k == 1 then Reps(reps.r1, reps.r0, reps.r2) else Reps(reps.r2, reps.r0, reps.r1)
  }

  /** ... and with a new one, which pushes the oldest out. */
  function Pushed(x: nat, reps: Reps): Reps { Reps(x, reps.r0, reps.r1) }

  /** A repeated offset moves to the front and the others keep their order.  Without
      literals the codes name the second, the third, and one less than the first. */
  lemma HistoryMoves(reps: Reps, offBase: nat, ll0: nat)
    requires offBase > 0 && ll0 <= 1
    ensures var after, k := UpdateRep(reps, offBase, ll0), offBase - 1 + ll0;
      if offBase > ZSTD_REP_NUM then after == Pushed(offBase - 3, reps)
      else if k < 3 then after == ToFront(reps, k)
      else after == Pushed(if reps.r0 == 0 then 0xFFFF_FFFF else (reps.r0 - 1) % 0x1_0000_0000, reps)
  {}

  /** So the offsets themselves stay the same. */
  lemma RepeatReorders(reps: Reps, offBase: nat, ll0: nat)
    requires offBase > 0 && ll0 <= 1 && offBase + ll0 <= ZSTD_REP_NUM
    ensures var after := UpdateRep(reps, offBase, ll0);
            multiset{after.r0, after.r1, after.r2} == multiset{reps.r0, reps.r1, reps.r2}
  {
    HistoryMoves(reps, offBase, ll0);
  }

  /** The history that either side keeps in an array. */
  function RepsOf(rep: array<nat>): Reps
    requires rep.Length == ZSTD_REP_NUM
    reads rep
  {
    Reps(rep[0], rep[1], rep[2])
  }

  method UpdateInPlace(rep: array<nat>, offBase: nat, ll0: nat)
    requires rep.Length == ZSTD_REP_NUM && offBase > 0 && ll0 <= 1
    modifies rep
    ensures RepsOf(rep) == UpdateRep(old(RepsOf(rep)), offBase, ll0)
  {
    if offBase > ZSTD_REP_NUM {
      rep[2] := rep[1];
      rep[1] := rep[0];
      rep[0] := offBase - ZSTD_REP_NUM;
    } else {
      var repCode := offBase - 1 + ll0;
      if repCode > 0 {
        var currentOffset := if repCode == ZSTD_REP_NUM then (rep[0] + 0xFFFF_FFFF) % 0x1_0000_0000 else rep[repCode];
        rep[2] := if repCode >= 2 then rep[1] else rep[2];
        rep[1] := rep[0];
        rep[0] := currentOffset;
      }
    }
  }

  /** What is executed. */
  datatype Value = Value(litLength: nat, matchLength: nat, offset: nat)

  /** The decoder's side, in `ZSTD_decodeSequence`, from the code of an offset and its raw
      bits.  An offset of zero becomes one that no window has. */
  function ResolveOffset(ofCode: nat, raw: nat, ll0: nat, reps: Reps): Reps
    requires ofCode <= MAX_OFF && raw < Pow2(ofCode) && ll0 <= 1
  {
    if ofCode > 1 then Reps(OF_BASE[ofCode] + raw, reps.r0, reps.r1)
    else if ofCode == 0 then Reps(reps.At(ll0), reps.At(1 - ll0), reps.r2)
    else
      var offset := OF_BASE[1] + ll0 + raw;
      var temp := if offset == 3 then (reps.r0 + 0xFFFF_FFFF_FFFF_FFFF) % 0x1_0000_0000_0000_0000 else reps.At(offset);
      Reps(if temp == 0 then 0xFFFF_FFFF_FFFF_FFFF else temp, reps.r0, if offset != 1 then reps.r1 else reps.r2)
  }

  /** The decoder's history moves in the same way. */
  lemma DecoderMoves(reps: Reps, ofCode: nat, raw: nat, ll0: nat)
    requires ofCode <= MAX_OFF && raw < Pow2(ofCode) && ll0 <= 1 && reps.Sane()
    ensures var after, k := ResolveOffset(ofCode, raw, ll0, reps), ofCode + raw + ll0;
      if ofCode > 1 then after == Pushed(Pow2(ofCode) - 3 + raw, reps)
      else if k < 3 then after == ToFront(reps, k)
      else after == Pushed(if reps.r0 == 1 then 0xFFFF_FFFF_FFFF_FFFF else reps.r0 - 1, reps)
  {
    hide Pow2;
    Pow2Values();
    if ofCode > 1 { OffsetBases(ofCode); }
  }

  /** All of a sequence. */
  function Resolve(q: Sequence, reps: Reps): (r: (Value, Reps))
    requires Carried(q)
    ensures r.0.offset == r.1.r0
  {
    var after := ResolveOffset(q.ofCode, q.offBase, if LL_BASE[q.llCode] == 0 then 1 else 0, reps);
    (Value(LL_BASE[q.llCode] + q.litLength, ML_BASE[q.mlCode] + q.mlBase, after.r0), after)
  }

  /** Codes and raw bits as they come out of a stream. */
  ghost predicate Carried(q: Sequence)
  {
    q.llCode < |LL_BITS| && q.mlCode < |ML_BITS| && q.ofCode <= MAX_OFF && q.offBase < Pow2(q.ofCode)
  }

  lemma OffsetBases(n: nat)
    requires 2 <= n <= MAX_OFF
    ensures OF_BASE[n] + 3 == Pow2(n)
  {
    hide Pow2;
    Pow2Values();
    Pow2Wide();
    Pow2Next(13);
    if n > 16 { Pow2Add(16, n - 16); }
  }

  // ----- what is stored is what is executed -----

  type Positive = n: nat | n > 0 witness 1

  /** A stored sequence, without its codes. */
  datatype Stored = Stored(litLength: nat, mlBase: nat, offBase: Positive)

  ghost predicate Storable(s: Stored)
  {
    s.litLength < LENGTHS && s.mlBase < LENGTHS && s.offBase < Pow2(32)
  }

  lemma CodesFit(s: Stored)
    requires Storable(s)
    ensures LLCode(s.litLength) < |LL_BITS| && MLCode(s.mlBase) < |ML_BITS| && Highbit(s.offBase) <= MAX_OFF
  {
    hide Low, Pow2, LLCode, MLCode;
    LitLengthBack(s.litLength);
    MatchLengthBack(s.mlBase);
    HighbitBounds(s.offBase);
    if Highbit(s.offBase) > MAX_OFF { Pow2Mono(32, Highbit(s.offBase)); }
  }

  /** `ZSTD_seqToCodes`. */
  ghost function Coded(s: Stored): (q: Sequence)
    requires Storable(s)
    ensures q.llCode < |LL_BITS| && q.mlCode < |ML_BITS| && q.ofCode <= MAX_OFF
  {
    CodesFit(s);
    Sequence(s.litLength, s.mlBase, s.offBase, LLCode(s.litLength), MLCode(s.mlBase), Highbit(s.offBase))
  }

  /** What the encoder means by it, and its history afterwards. */
  function Meant(s: Stored, reps: Reps): (r: (Value, Reps))
    ensures r.0.offset == r.1.r0
  {
    var after := UpdateRep(reps, s.offBase, if s.litLength == 0 then 1 else 0);
    (Value(s.litLength, s.mlBase + 3, after.r0), after)
  }

  /** Which offset each number means. */
  lemma MeantOffset(s: Stored, reps: Reps)
    requires reps.Sane()
    ensures var offset := Meant(s, reps).0.offset;
      offset == if s.offBase > 3 then s.offBase - 3
                else if s.litLength > 0 then reps.At(s.offBase - 1)
                else if s.offBase < 3 then reps.At(s.offBase) else reps.r0 - 1
  {}

  lemma OffsetBits(o: nat)
    requires 0 < o < Pow2(32)
    ensures var n := Highbit(o); n <= MAX_OFF && Low(o, n) < Pow2(n)
    ensures var n := Highbit(o);
      if n > 1 then o > 3 && OF_BASE[n] + Low(o, n) == o - 3 else o == Pow2(n) + Low(o, n) && o <= 3 && (n == 0 <==> o == 1)
  {
    hide Low, Pow2, Highbit;
    var n := Highbit(o);
    HighbitBounds(o);
    HighBase(o, n);
    LowBound(o, n);
    Pow2Values();
    if n > MAX_OFF { Pow2Mono(32, n); }
    if n > 1 {
      OffsetBases(n);
      Pow2Mono(2, n);
    }
  }

  lemma OffsetBack(o: nat, ll0: nat, reps: Reps)
    requires 0 < o < Pow2(32) && ll0 <= 1 && reps.Sane()
    ensures Highbit(o) <= MAX_OFF && Low(o, Highbit(o)) < Pow2(Highbit(o))
    ensures var after := UpdateRep(reps, o, ll0);
      && (ResolveOffset(Highbit(o), Low(o, Highbit(o)), ll0, reps) == after <==> after.r0 != 0)
      && (after.r0 != 0 ==> after.Sane())
  {
    hide Low, Pow2, Highbit;
    Pow2Wide();
    Pow2Values();
    OffsetBits(o);
  }

  lemma SentCarried(s: Stored)
    requires Storable(s)
    ensures Carried(Sent(Coded(s)))
  {
    hide Pow2, LLCode, MLCode, Highbit, Low;
    LowBound(s.offBase, Highbit(s.offBase));
  }

  /** The decoder executes what was meant, and keeps the same history, exactly when the
      offset meant is not zero. */
  lemma ResolveBack(s: Stored, reps: Reps)
    requires Storable(s) && reps.Sane()
    ensures Carried(Sent(Coded(s)))
    ensures Resolve(Sent(Coded(s)), reps) == Meant(s, reps) <==> Meant(s, reps).0.offset != 0
    ensures Meant(s, reps).0.offset != 0 ==> Meant(s, reps).1.Sane()
  {
    hide Low, Pow2, Highbit, LLCode, MLCode, UpdateRep, ResolveOffset;
    SentCarried(s);
    LitLengthBack(s.litLength);
    MatchLengthBack(s.mlBase);
    OffsetBack(s.offBase, if s.litLength == 0 then 1 else 0, reps);
  }

  ghost predicate CarriedAll(qs: seq<Sequence>) { forall i :: 0 <= i < |qs| ==> Carried(qs[i]) }

  /** A whole section. */
  ghost function ResolveAll(qs: seq<Sequence>, reps: Reps): (r: (seq<Value>, Reps))
    requires CarriedAll(qs)
    ensures |r.0| == |qs|
  {
    if qs == [] then ([], reps)
    else
      var k := |qs| - 1;
      var (vs, before) := ResolveAll(qs[..k], reps);
      var (v, after) := Resolve(qs[k], before);
      (vs + [v], after)
  }

  function MeantAll(ss: seq<Stored>, reps: Reps): (r: (seq<Value>, Reps))
    ensures |r.0| == |ss|
  {
    if ss == [] then ([], reps)
    else
      var k := |ss| - 1;
      var (vs, before) := MeantAll(ss[..k], reps);
      var (v, after) := Meant(ss[k], before);
      (vs + [v], after)
  }

  ghost function SentCodes(ss: seq<Stored>): (qs: seq<Sequence>)
    requires forall i :: 0 <= i < |ss| ==> Storable(ss[i])
    ensures |qs| == |ss| && forall i :: 0 <= i < |qs| ==> qs[i] == Sent(Coded(ss[i]))
  {
    seq(|ss|, i requires 0 <= i < |ss| => Sent(Coded(ss[i])))
  }

  ghost function CodedAll(ss: seq<Stored>): (qs: seq<Sequence>)
    requires forall i :: 0 <= i < |ss| ==> Storable(ss[i])
    ensures |qs| == |ss| && forall i :: 0 <= i < |qs| ==> qs[i] == Coded(ss[i])
  {
    seq(|ss|, i requires 0 <= i < |ss| => Coded(ss[i]))
  }

  lemma AllCarried(ss: seq<Stored>)
    requires forall i :: 0 <= i < |ss| ==> Storable(ss[i])
    ensures CarriedAll(SentCodes(ss))
  {
    hide Storable, Sent, Coded, Carried;
    forall i | 0 <= i < |ss| ensures Carried(SentCodes(ss)[i]) { SentCarried(ss[i]); }
  }

  /** The history of both sides stays the same over any number of sequences. */
  lemma {:induction false} ResolveAllBack(ss: seq<Stored>, reps: Reps)
    requires (forall i :: 0 <= i < |ss| ==> Storable(ss[i])) && reps.Sane()
    requires forall v :: v in MeantAll(ss, reps).0 ==> v.offset != 0
    ensures CarriedAll(SentCodes(ss)) && ResolveAll(SentCodes(ss), reps) == MeantAll(ss, reps) && MeantAll(ss, reps).1.Sane()
  {
    hide Storable, Sent, Coded, Carried, Resolve, Meant, Reps.Sane;
    AllCarried(ss);
    if ss != [] {
      var k := |ss| - 1;
      var qs, before := SentCodes(ss), MeantAll(ss[..k], reps);
      assert MeantAll(ss, reps).0 == before.0 + [Meant(ss[k], before.1).0];
      ResolveAllBack(ss[..k], reps);
      assert qs[..k] == SentCodes(ss[..k]);
      assert Meant(ss[k], before.1).0 in MeantAll(ss, reps).0;
      ResolveBack(ss[k], before.1);
    }
  }
}
