/** Small examples of the formats with all their bits, such as RFC 8878 gives them. */
module FormatAnswers {
  import opened Bits
  import opened BitStream
  import opened Results
  import opened FseSpread
  import opened Counting
  import opened Kraft
  import NCount
  import HufCodes
  import HufWeights
  import HufHeader

  // ----- the bit stream -----

  /** Three bits, four bits and the end mark make one byte. */
  lemma SealedByte()
    ensures Empty.Push(5, 3).Ok() && Sealed([0xCD], Empty.Push(5, 3).Push(9, 4))
  {
    Pow2Values();
    assert Shl(5, 0) == 5 && Shl(9, 3) == 72;
    assert LeNat([0xCD]) == 0xCD;
  }

  // ----- the header of normalised counts -----

  lemma FieldIs(count: int, remaining: nat, h: nat, p: nat, f: Field)
    requires remaining > 0 && -1 <= count < remaining && p == Pow2(h) <= remaining < 2 * p
    requires var max := 2 * p - 1 - remaining;
      f == Field(if count + 1 >= p then count + 1 + max else count + 1, if count + 1 < max then h else h + 1)
    ensures NCount.CountField(count, remaining) == f
  {
    hide Pow2, Highbit;
    Pow2Next(h);
    HighbitUnique(remaining, h);
  }

  /** Where values up to 157 can follow, those up to 97 take seven bits and the others eight. */
  lemma Values157(count: int)
    requires -1 <= count < 157
    ensures NCount.CountField(count, 157)
            == if count + 1 < 98 then Field(count + 1, 7) else if count + 1 < 128 then Field(count + 1, 8)
               else Field(count + 1 + 98, 8)
  {
    hide Pow2, Highbit, NCount.CountField;
    Pow2Values();
    FieldIs(count, 157, 7, 128, if count + 1 < 98 then Field(count + 1, 7) else if count + 1 < 128 then Field(count + 1, 8)
                                else Field(count + 1 + 98, 8));
  }

  function EightCounts(): (norm: seq<int>)
    ensures |norm| == 8 && NCount.Counts(norm)
  {
    [14, 0, 0, 0, 0, 9, -1, 8]
  }

  /** One count that does not follow a zero. */
  lemma CountStep(norm: seq<int>, i: nat, remaining: nat, s: Stack, h: nat, p: nat, f: Field)
    requires NCount.Counts(norm) && i < |norm| && s.Ok() && remaining > 1 && remaining - Weight(norm[i]) >= 1
    requires -1 <= norm[i] < remaining && p == Pow2(h) <= remaining < 2 * p
    requires var max := 2 * p - 1 - remaining;
      f == Field(if norm[i] + 1 >= p then norm[i] + 1 + max else norm[i] + 1, if norm[i] + 1 < max then h else h + 1)
    ensures f.value < Pow2(f.width)
    ensures NCount.WriteFrom(norm, i, remaining, false, s)
            == NCount.WriteFrom(norm, i + 1, remaining - Weight(norm[i]), norm[i] == 0, s.Push(f.value, f.width))
  {
    hide Pow2, NCount.CountField;
    FieldIs(norm[i], remaining, h, p, f);
  }

  /** A count after a zero and three more. */
  lemma RunStep(norm: seq<int>, i: nat, remaining: nat, s: Stack, h: nat, p: nat, f: Field)
    requires NCount.Counts(norm) && i + 3 < |norm| && s.Ok() && remaining > 1 && remaining - Weight(norm[i + 3]) >= 1
    requires norm[i] == norm[i + 1] == norm[i + 2] == 0 < norm[i + 3] < remaining && p == Pow2(h) <= remaining < 2 * p
    requires var max := 2 * p - 1 - remaining; var c := norm[i + 3] + 1;
      f == Field(if c >= p then c + max else c, if c < max then h else h + 1)
    ensures f.value < Pow2(f.width) && Pow2(2) == 4
    ensures NCount.WriteFrom(norm, i, remaining, true, s)
            == NCount.WriteFrom(norm, i + 4, remaining - norm[i + 3], false, s.Push(3, 2).Push(0, 2).Push(f.value, f.width))
  {
    hide Pow2, NCount.CountField;
    Pow2Values();
    FieldIs(norm[i + 3], remaining, h, p, f);
    assert NCount.ZeroRun(norm, i + 3) == 0 && NCount.ZeroRun(norm, i + 2) == 1 && NCount.ZeroRun(norm, i + 1) == 2;
    assert NCount.ZeroRun(norm, i) == 3;
    assert NCount.PutZeros(s, 3) == NCount.PutZeros(s.Push(3, 2), 0) == s.Push(3, 2).Push(0, 2);
  }

  lemma PushIs(s: Stack, v: nat, n: nat, p: nat, t: Stack)
    requires s.Ok() && v < Pow2(n) && p == Pow2(s.len) && t == Stack(s.val + v * p, s.len + n)
    ensures s.Push(v, n) == t
  {
    hide Pow2, Shl;
    ShlIsMul(v, s.len);
  }

  /** Four zeros are one zero and a run of three, and the last count ends the header. */
  lemma HeaderOfEight()
    ensures NCount.Header(EightCounts(), 5) == Ok(Stack(0xF14_62F0, 28))
    ensures LeBytes(0xF14_62F0, 4) == [0xF0, 0x62, 0x14, 0x0F]
  {
    hide Pow2, NCount.WriteFrom, Stack.Push;
    var norm := EightCounts();
    Pow2Values();
    Pow2Wide();
    Pow2Add(16, 1);
    Pow2Add(16, 5);
    PushIs(Empty, 0, 4, 1, Stack(0, 4));
    PushIs(Stack(0, 4), 15, 5, 0x10, Stack(0xF0, 9));
    PushIs(Stack(0xF0, 9), 1, 4, 0x200, Stack(0x2F0, 13));
    PushIs(Stack(0x2F0, 13), 3, 2, 0x2000, Stack(0x62F0, 15));
    PushIs(Stack(0x62F0, 15), 0, 2, 0x8000, Stack(0x62F0, 17));
    PushIs(Stack(0x62F0, 17), 10, 4, 0x2_0000, Stack(0x14_62F0, 21));
    PushIs(Stack(0x14_62F0, 21), 0, 3, 0x20_0000, Stack(0x14_62F0, 24));
    PushIs(Stack(0x14_62F0, 24), 15, 4, 0x100_0000, Stack(0xF14_62F0, 28));
    CountStep(norm, 0, 33, Stack(0, 4), 5, 32, Field(15, 5));
    CountStep(norm, 1, 19, Stack(0xF0, 9), 4, 16, Field(1, 4));
    RunStep(norm, 2, 19, Stack(0x2F0, 13), 4, 16, Field(10, 4));
    CountStep(norm, 6, 10, Stack(0x14_62F0, 21), 3, 8, Field(0, 3));
    CountStep(norm, 7, 9, Stack(0x14_62F0, 24), 3, 8, Field(15, 4));
    AllWritten(norm, Stack(0xF14_62F0, 28));
  }

  lemma AllWritten(norm: seq<int>, s: Stack)
    requires NCount.Counts(norm) && s.Ok()
    ensures NCount.WriteFrom(norm, |norm|, 1, false, s) == Ok(s)
  {}

  // ----- Huffman words and weights -----

  /** Six symbols, the fourth unused. */
  function Lengths(): (nb: seq<nat>)
    ensures |nb| == 6
  {
    [1, 2, 3, 0, 4, 4]
  }

  lemma StartIs(s: nat, at: nat)
    requires s < 6 && Lengths()[s] > 0
    requires at == (if s == 0 then 8 else if s == 1 then 4 else if s == 2 then 2 else if s == 4 then 0 else 1)
    ensures HufCodes.Start(Lengths(), 4, s) == at
  {
    hide Pow2;
    Pow2Values();
    var p := HufCodes.Preds(Lengths(), s);
    assert Sum(p, 0, 4) == 0;
    assert Sum(p, 1, 4) == Share(4, p[0]);
    assert Sum(p, 2, 4) == Sum(p, 1, 4) + Share(4, p[1]);
    assert Sum(p, 3, 4) == Sum(p, 2, 4) + Share(4, p[2]);
    assert Sum(p, 4, 4) == Sum(p, 3, 4) + Share(4, p[3]);
    assert Sum(p, 5, 4) == Sum(p, 4, 4) + Share(4, p[4]);
    assert Sum(p, 6, 4) == Sum(p, 5, 4) + Share(4, p[5]);
  }

  /** The words 1, 01, 001, 0000 and 0001. */
  lemma WordsOfSix(vals: seq<nat>)
    requires HufCodes.Canonical(Lengths(), 4, vals)
    ensures |vals| == 6 && vals[0] == 1 && vals[1] == 1 && vals[2] == 1 && vals[4] == 0 && vals[5] == 1
  {
    hide HufCodes.Start, Shl;
    WordIs(vals, 0, 1);
    WordIs(vals, 1, 1);
    WordIs(vals, 2, 1);
    WordIs(vals, 4, 0);
    WordIs(vals, 5, 1);
  }

  lemma WordIs(vals: seq<nat>, s: nat, v: nat)
    requires HufCodes.Canonical(Lengths(), 4, vals) && s < 6 && Lengths()[s] > 0
    requires v == if s == 4 then 0 else 1
    ensures |vals| == 6 && vals[s] == v
  {
    hide HufCodes.Start, Shl, Pow2;
    Pow2Values();
    StartIs(s, if s == 0 then 8 else if s == 1 then 4 else if s == 2 then 2 else if s == 4 then 0 else 1);
    assert HufCodes.IsCode(Lengths(), 4, s, vals[s]);
    ShlIsMul(vals[s], 4 - Lengths()[s]);
  }

  function FiveWeights(): (ws: seq<Byte>)
    ensures |ws| == 5
  {
    [4, 3, 2, 0, 1]
  }

  /** Weights of 8 + 4 + 2 + 1 leave 1 of 16: the last symbol has a word of four bits. */
  lemma WeightsOfSix()
    ensures HufWeights.StatsOf(FiveWeights()) == Ok(HufWeights.Stats([4, 3, 2, 0, 1, 1], 4))
  {
    hide Pow2, Highbit;
    Pow2Values();
    var ws, all := FiveWeights(), [4, 3, 2, 0, 1, 1];
    assert HufWeights.WeightTotal(ws, 2) == 12 && HufWeights.WeightTotal(ws, 5) == 15;
    HighbitUnique(15, 3);
    HighbitUnique(1, 0);
    assert ws + [1] == all;
    assert Rank(all, 4, 1) == 0 && Rank(all, 6, 1) == 2;
  }

  /** The first weight of a byte is the high one. */
  lemma NibblesOfFive()
    ensures HufHeader.Nibbles(FiveWeights()) == [0x43, 0x20, 0x10]
  {}
}
