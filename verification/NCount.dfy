/** The header that carries normalised counts (section 4.1.1 of RFC 8878): what
    `FSE_writeNCount` and `FSE_readNCount` agree on, and why they do. */
module NCount {
  import opened Bits
  import opened BitStream
  import opened Results
  import opened FseSpread

  const TABLELOG_ABSOLUTE_MAX := 15

  // ----- writing -----

  /** The number of zeros from `i` on. */
  function ZeroRun(norm: seq<int>, i: nat): (z: nat)
    requires i <= |norm|
    ensures i + z <= |norm| && (i + z < |norm| ==> norm[i + z] != 0)
    ensures forall j :: i <= j < i + z ==> norm[j] == 0
    decreases |norm| - i
  {
    if i < |norm| && norm[i] == 0 then 1 + ZeroRun(norm, i + 1) else 0
  }

  /** A run of `z` zeros: a pair of bits for every three, and one for the rest. */
  function PutZeros(s: Stack, z: nat): (t: Stack)
    requires s.Ok()
    ensures t.Ok()
    decreases z
  {
    Pow2Values();
    if z < 3 then s.Push(z, 2) else PutZeros(s.Push(3, 2), z - 3)
  }

  /** The smallest count of fields of the longer form: those below it save a bit. */
  function Threshold(remaining: nat): nat
    requires remaining > 0
  {
    Pow2(Highbit(remaining))
  }

  function Spare(remaining: nat): (m: nat)
    requires remaining > 0
    ensures m < Threshold(remaining) && m + remaining == 2 * Threshold(remaining) - 1
  {
    HighbitBounds(remaining);
    2 * Threshold(remaining) - 1 - remaining
  }

  /** What the loop variables of both sides say about `remaining`. */
  ghost predicate Scaled(threshold: nat, nbBits: nat, remaining: int)
  {
    remaining >= 1 && nbBits == Highbit(remaining) + 1 && threshold == Threshold(remaining)
  }

  /** The field for a count that leaves something of `remaining`. */
  function CountField(count: int, remaining: nat): (f: Field)
    requires remaining > 0 && -1 <= count < remaining
    ensures f.value < Pow2(f.width) && f.width <= Highbit(remaining) + 1
    ensures remaining > 1 ==> f.width > 0
  {
    var c, h, max := count + 1, Highbit(remaining), Spare(remaining);
    Field(if c >= Threshold(remaining) then c + max else c, if c < max then h else h + 1)
  }

  function PutCount(s: Stack, count: int, remaining: nat): (t: Stack)
    requires s.Ok() && remaining > 0 && -1 <= count < remaining
    ensures t.Ok()
  {
    s.Push(CountField(count, remaining).value, CountField(count, remaining).width)
  }

  ghost predicate Counts(norm: seq<int>) { forall i :: 0 <= i < |norm| ==> norm[i] >= -1 }

  /** The header from symbol `i` on, with `remaining - 1` cells to hand out. */
  function WriteFrom(norm: seq<int>, i: nat, remaining: int, previousIs0: bool, s: Stack): (r: Result<Stack>)
    requires Counts(norm) && i <= |norm| && s.Ok() && remaining >= 1
    ensures r.Ok? ==> r.value.Ok()
    decreases |norm| - i
  {
    if i == |norm| || remaining == 1 then
      if remaining == 1 then Ok(s) else Err(Generic)
    else
      var z := if previousIs0 then ZeroRun(norm, i) else 0;
      if i + z == |norm| then Err(Generic) else
        var count := norm[i + z];
        if remaining - Weight(count) < 1 then Err(Generic) else
          var t := if previousIs0 then PutZeros(s, z) else s;
          WriteFrom(norm, i + z + 1, remaining - Weight(count), count == 0, PutCount(t, count, remaining))
  }

  function StartWith(tableLog: nat): (s: Stack)
    requires MIN_TABLELOG <= tableLog <= MIN_TABLELOG + 10
    ensures s.Ok() && s.len == 4
  {
    Pow2Values();
    Empty.Push(tableLog - MIN_TABLELOG, 4)
  }

  /** All bits of the header. */
  function Header(norm: seq<int>, tableLog: nat): (r: Result<Stack>)
    requires Counts(norm)
    ensures r.Ok? ==> r.value.Ok()
  {
    if tableLog > MAX_TABLELOG then Err(TableLogTooLarge)
    else if tableLog < MIN_TABLELOG then Err(Generic)
    else WriteFrom(norm, 0, Pow2(tableLog) + 1, false, StartWith(tableLog))
  }

  // ----- reading, at an absolute bit position of the number `x` -----

  datatype Parsed = Parsed(norm: seq<int>, tableLog: nat, bits: nat)

  /** `Overrun` is a reader that has to go on at bit `at`, after its last bit: inside a
      run of zeros or at a count, and with the counts so far. */
  datatype Outcome = Done(parsed: Result<Parsed>) | Overrun(at: nat, remaining: nat, inRun: bool, norm: seq<int>)

  /** The leading pairs that are all ones. */
  function Threes(y: nat): nat
  {
    if y % 4 == 3 then 1 + Threes(y / 4) else 0
  }

  /** The zeros of a run, and the bits it takes. */
  function GetZeros(y: nat): (r: (nat, nat))
    ensures r.1 > 0
  {
    (3 * Threes(y) + Shr(y, 2 * Threes(y)) % 4, 2 * Threes(y) + 2)
  }

  function GetCount(y: nat, remaining: nat): (r: (int, nat))
    requires remaining > 1
    ensures -1 <= r.0 < remaining && 0 < r.1 <= Highbit(remaining) + 1
    ensures remaining - Weight(r.0) >= 1
  {
    var h, max := Highbit(remaining), Spare(remaining);
    if Low(y, h) < max then (Low(y, h) - 1, h) else
      LowBound(y, h + 1);
      LowLow(y, h, 1);
      LowBound(Low(y, h + 1), h);
      var v := Low(y, h + 1);
      ((if v >= Threshold(remaining) then v - max else v) - 1, h + 1)
  }

  function Zeros(n: nat): (r: seq<int>)
    ensures |r| == n && forall i :: 0 <= i < n ==> r[i] == 0
  {
    seq(n, _ => 0)
  }

  /** Runs are read twelve pairs at a time.  When such a piece is the last that fits,
      the reader looks for more of the run after the last bit. */
  predicate RunMeetsEnd(x: nat, pos: nat, limit: nat)
  {
    Threes(Shr(x, pos)) % 12 == 0 && pos + 2 * Threes(Shr(x, pos)) == limit
  }

  /** Reads counts until all cells are handed out.  `cap` symbols are allowed, and a
      read may start anywhere below bit `limit`. */
  function ReadFrom(x: nat, pos: nat, remaining: nat, previous0: bool, norm: seq<int>, tableLog: nat,
                    cap: nat, limit: nat): Outcome
    requires remaining > 1 && |norm| < cap
    decreases cap - |norm|
  {
    var (z, bits) := if previous0 then GetZeros(Shr(x, pos)) else (0, 0);
    if |norm| + z >= cap then Done(Err(CorruptionDetected))
    else if previous0 && pos + bits >= limit then
      if RunMeetsEnd(x, pos, limit) then Overrun(limit, remaining, true, norm + Zeros(z))
      else Overrun(pos + bits, remaining, false, norm + Zeros(z))
    else
      var (count, width) := GetCount(Shr(x, pos + bits), remaining);
      var next, left, more := pos + bits + width, remaining - Weight(count), norm + Zeros(z) + [count];
      if left == 1 then
        if next > limit then Done(Err(CorruptionDetected)) else Done(Ok(Parsed(more, tableLog, next)))
      else if |more| >= cap then Done(Err(CorruptionDetected))
      else if next >= limit then Overrun(next, left, count == 0, more)
      else ReadFrom(x, next, left, count == 0, more, tableLog, cap, limit)
  }

  function ReadHeader(x: nat, cap: nat, limit: nat): Outcome
    requires cap > 0
  {
    var tableLog := Low(x, 4) + MIN_TABLELOG;
    if tableLog > TABLELOG_ABSOLUTE_MAX then Done(Err(TableLogTooLarge))
    else ReadFrom(x, 4, Pow2(tableLog) + 1, false, [], tableLog, cap, limit)
  }

  // ----- the bits of one are the bits of the other -----

  /** `x` starts with the bits of `s`. */
  ghost predicate Begins(x: nat, s: Stack)
  {
    s.Ok() && Low(x, s.len) == s.val
  }

  lemma BeginsPush(x: nat, s: Stack, v: nat, n: nat)
    requires s.Ok() && v < Pow2(n) && Begins(x, s.Push(v, n))
    ensures Begins(x, s) && Low(Shr(x, s.len), n) == v
  {
    hide Low, Shr, Shl, Pow2;
    LowLow(x, s.len, n);
    Join(s.val, v, s.len);
  }

  lemma {:induction false} BeginsZeros(x: nat, s: Stack, z: nat)
    requires s.Ok() && Begins(x, PutZeros(s, z))
    ensures Begins(x, s)
    decreases z
  {
    Pow2Values();
    if z < 3 {
      BeginsPush(x, s, z, 2);
    } else {
      BeginsZeros(x, s.Push(3, 2), z - 3);
      BeginsPush(x, s, 3, 2);
    }
  }

  lemma {:induction false} BeginsFrom(x: nat, norm: seq<int>, i: nat, remaining: int, previousIs0: bool, s: Stack)
    requires Counts(norm) && i <= |norm| && s.Ok() && remaining >= 1
    requires WriteFrom(norm, i, remaining, previousIs0, s).Ok?
    requires Begins(x, WriteFrom(norm, i, remaining, previousIs0, s).value)
    ensures Begins(x, s)
    ensures s.len <= WriteFrom(norm, i, remaining, previousIs0, s).value.len
    decreases |norm| - i
  {
    hide Begins, PutZeros, CountField, Pow2;
    if i < |norm| && remaining != 1 {
      var z := if previousIs0 then ZeroRun(norm, i) else 0;
      var count := norm[i + z];
      var t := if previousIs0 then PutZeros(s, z) else s;
      BeginsFrom(x, norm, i + z + 1, remaining - Weight(count), count == 0, PutCount(t, count, remaining));
      BeginsPush(x, t, CountField(count, remaining).value, CountField(count, remaining).width);
      if previousIs0 { BeginsZeros(x, s, z); ZerosLength(s, z); }
    }
  }

  lemma {:induction false} ZerosLength(s: Stack, z: nat)
    requires s.Ok()
    ensures PutZeros(s, z).len == s.len + 2 * (z / 3) + 2
    decreases z
  {
    hide Pow2, Shl;
    if z >= 3 {
      Pow2Values();
      ZerosLength(s.Push(3, 2), z - 3);
    }
  }

  lemma LowTwo(y: nat)
    ensures Low(y, 2) == y % 4 && Shr(y, 2) == y / 4
  {
    LowPair(y, 0);
    ShiftNone(y / 4);
  }

  lemma {:induction false} ZerosBack(x: nat, s: Stack, z: nat)
    requires s.Ok() && Begins(x, PutZeros(s, z))
    ensures GetZeros(Shr(x, s.len)) == (z, PutZeros(s, z).len - s.len)
    decreases z
  {
    hide Low, Shl, Pow2;
    Pow2Values();
    var y := Shr(x, s.len);
    LowTwo(y);
    if z < 3 {
      BeginsPush(x, s, z, 2);
      ShiftNone(y);
    } else {
      var t := s.Push(3, 2);
      BeginsZeros(x, t, z - 3);
      BeginsPush(x, s, 3, 2);
      ZerosBack(x, t, z - 3);
      ShrShr(x, s.len, 2);
      ShrShr(y, 2, 2 * Threes(y / 4));
    }
  }

  /** A field of either length is recognised. */
  lemma CountBack(y: nat, count: int, remaining: nat)
    requires remaining > 1 && -1 <= count < remaining
    requires var f := CountField(count, remaining); Low(y, f.width) == f.value
    ensures GetCount(y, remaining) == (count, CountField(count, remaining).width)
  {
    hide Low, Highbit;
    var h, max := Highbit(remaining), Spare(remaining);
    var c := count + 1;
    LowLow(y, h, 1);
    Pow2Next(h);
    if c >= max {
      if c < Pow2(h) {
        LowSmall(c, h);
      } else {
        ShiftNone(1);
        assert c + max == (c + max - Pow2(h)) + Pow2(h);
        ShlOne(h);
        Join(c + max - Pow2(h), 1, h);
      }
    }
  }

  lemma {:induction false} CumGrows(norm: seq<int>, i: nat, j: nat)
    requires i <= j <= |norm|
    ensures Cum(norm, i) <= Cum(norm, j)
    ensures forall k :: i <= k < j && norm[k] != 0 ==> Cum(norm, i) < Cum(norm, j)
    decreases j
  {
    if i < j { CumGrows(norm, i, j - 1); }
  }

  lemma {:induction false} CumZeros(norm: seq<int>, i: nat, z: nat)
    requires i + z <= |norm| && forall j :: i <= j < i + z ==> norm[j] == 0
    ensures Cum(norm, i + z) == Cum(norm, i)
    decreases z
  {
    if z > 0 { CumZeros(norm, i, z - 1); }
  }

  /** One turn of the writer. */
  lemma WriteStep(norm: seq<int>, i: nat, remaining: int, previousIs0: bool, s: Stack)
    requires Counts(norm) && i < |norm| && s.Ok() && remaining > 1
    requires var z := if previousIs0 then ZeroRun(norm, i) else 0;
             i + z < |norm| && remaining - Weight(norm[i + z]) >= 1
    ensures var z := if previousIs0 then ZeroRun(norm, i) else 0;
            var count, t := norm[i + z], if previousIs0 then PutZeros(s, z) else s;
            WriteFrom(norm, i, remaining, previousIs0, s)
            == WriteFrom(norm, i + z + 1, remaining - Weight(count), count == 0, PutCount(t, count, remaining))
  {
    hide PutZeros, PutCount, ZeroRun;
  }

  lemma WriteEnd(norm: seq<int>, previousIs0: bool, s: Stack)
    requires Counts(norm) && s.Ok()
    ensures WriteFrom(norm, |norm|, 1, previousIs0, s) == Ok(s)
  {}

  /** One turn of the reader. */
  lemma ReadStep(x: nat, pos: nat, remaining: nat, previous0: bool, norm: seq<int>, tableLog: nat, cap: nat, limit: nat,
                 z: nat, bits: nat, count: int, width: nat)
    requires remaining > 1 && |norm| + z < cap
    requires if previous0 then GetZeros(Shr(x, pos)) == (z, bits) && pos + bits < limit else z == bits == 0
    requires GetCount(Shr(x, pos + bits), remaining) == (count, width)
    ensures var next, left, more := pos + bits + width, remaining - Weight(count), norm + Zeros(z) + [count];
      ReadFrom(x, pos, remaining, previous0, norm, tableLog, cap, limit) ==
      if left == 1 then
        if next > limit then Done(Err(CorruptionDetected)) else Done(Ok(Parsed(more, tableLog, next)))
      else if |more| >= cap then Done(Err(CorruptionDetected))
      else if next >= limit then Overrun(next, left, count == 0, more)
      else ReadFrom(x, next, left, count == 0, more, tableLog, cap, limit)
  {
    hide GetZeros, GetCount;
  }

  /** The fields of one turn, written after `s`, are what the reader finds there. */
  lemma FieldsBack(x: nat, s: Stack, previousIs0: bool, z: nat, count: int, remaining: nat)
    requires s.Ok() && remaining > 1 && -1 <= count < remaining && (!previousIs0 ==> z == 0)
    requires var t := if previousIs0 then PutZeros(s, z) else s; Begins(x, PutCount(t, count, remaining))
    ensures var t := if previousIs0 then PutZeros(s, z) else s;
      && s.len <= t.len < PutCount(t, count, remaining).len
      && (if previousIs0 then GetZeros(Shr(x, s.len)) == (z, t.len - s.len) else t == s)
      && GetCount(Shr(x, t.len), remaining) == (count, PutCount(t, count, remaining).len - t.len)
      && Begins(x, s)
  {
    hide Begins, PutZeros, CountField, Pow2, GetZeros, GetCount, Low, Shr;
    var t := if previousIs0 then PutZeros(s, z) else s;
    var f := CountField(count, remaining);
    BeginsPush(x, t, f.value, f.width);
    CountBack(Shr(x, t.len), count, remaining);
    if previousIs0 {
      BeginsZeros(x, s, z);
      ZerosLength(s, z);
      ZerosBack(x, s, z);
    }
  }

  /** What reading gives for the rest of a valid header: the rest of the counts. */
  lemma {:induction false} RoundTripFrom(x: nat, norm: seq<int>, tableLog: nat, i: nat, previousIs0: bool, s: Stack,
                                         cap: nat, limit: nat)
    requires ValidNorm(norm, tableLog) && norm[|norm| - 1] != 0 && i < |norm| <= cap && s.Ok()
    requires Cum(norm, i) < Pow2(tableLog)
    requires var w := WriteFrom(norm, i, Pow2(tableLog) + 1 - Cum(norm, i), previousIs0, s);
             w.Ok? ==> Begins(x, w.value) && w.value.len <= limit
    ensures var remaining := Pow2(tableLog) + 1 - Cum(norm, i);
            var w := WriteFrom(norm, i, remaining, previousIs0, s);
            && w.Ok? && s.len < w.value.len && Begins(x, s)
            && ReadFrom(x, s.len, remaining, previousIs0, norm[..i], tableLog, cap, limit)
               == Done(Ok(Parsed(norm, tableLog, w.value.len)))
    decreases |norm| - i
  {
    hide Begins, PutZeros, PutCount, Pow2, GetZeros, GetCount, Low, Shr, ZeroRun, WriteFrom, ReadFrom, Highbit, Threshold, Zeros;
    var remaining := Pow2(tableLog) + 1 - Cum(norm, i);
    var z := if previousIs0 then ZeroRun(norm, i) else 0;
    var k := i + z;
    CumZeros(norm, i, z);
    CumGrows(norm, k + 1, |norm|);
    var count := norm[k];
    var t := if previousIs0 then PutZeros(s, z) else s;
    var u := PutCount(t, count, remaining);
    var left := remaining - Weight(count);
    WriteStep(norm, i, remaining, previousIs0, s);
    var more := norm[..i] + Zeros(z) + [count];
    assert more == norm[..k + 1] by { assert forall j :: i <= j < k ==> norm[j] == 0; }
    if k + 1 < |norm| {
      assert left > 1;
      RoundTripFrom(x, norm, tableLog, k + 1, count == 0, u, cap, limit);
    } else {
      WriteEnd(norm, count == 0, u);
      assert norm[..k + 1] == norm;
    }
    FieldsBack(x, s, previousIs0, z, count, remaining);
    ReadStep(x, s.len, remaining, previousIs0, norm[..i], tableLog, cap, limit, z, t.len - s.len, count, u.len - t.len);
  }

  /** A number that starts with the header of valid counts is read back as exactly
      those counts, their table log and the length of the header. */
  lemma RoundTrip(x: nat, norm: seq<int>, tableLog: nat, cap: nat, limit: nat)
    requires ValidNorm(norm, tableLog) && norm[|norm| - 1] != 0 && |norm| <= cap
    requires Header(norm, tableLog).Ok? ==> Begins(x, Header(norm, tableLog).value) && Header(norm, tableLog).value.len <= limit
    ensures Header(norm, tableLog).Ok?
    ensures ReadHeader(x, cap, limit) == Done(Ok(Parsed(norm, tableLog, Header(norm, tableLog).value.len)))
  {
    hide Begins, Pow2, Low, Shr, WriteFrom, ReadFrom;
    StartCum(norm, tableLog);
    RoundTripFrom(x, norm, tableLog, 0, false, StartWith(tableLog), cap, limit);
    Pow2Values();
    BeginsPush(x, Empty, tableLog - MIN_TABLELOG, 4);
    ShiftNone(x);
  }

  /** With tables of up to 64 cells a header takes at most nine bits a symbol. */
  lemma {:induction false} ShortHeaderFrom(norm: seq<int>, i: nat, remaining: int, previousIs0: bool, s: Stack)
    requires Counts(norm) && i <= |norm| && s.Ok() && 1 <= remaining <= 65
    requires WriteFrom(norm, i, remaining, previousIs0, s).Ok?
    ensures s.len <= WriteFrom(norm, i, remaining, previousIs0, s).value.len <= s.len + 9 * (|norm| - i)
    decreases |norm| - i
  {
    hide PutZeros, Pow2, Highbit, Threshold, Spare;
    if i < |norm| && remaining != 1 {
      var z := if previousIs0 then ZeroRun(norm, i) else 0;
      var count := norm[i + z];
      var t := if previousIs0 then PutZeros(s, z) else s;
      ShortHeaderFrom(norm, i + z + 1, remaining - Weight(count), count == 0, PutCount(t, count, remaining));
      HighbitBounds(remaining);
      Pow2Values();
      if Highbit(remaining) > 6 { Pow2Mono(7, Highbit(remaining)); }
      if previousIs0 { ZerosLength(s, z); }
    }
  }

  lemma ShortHeader(norm: seq<int>, tableLog: nat)
    requires Counts(norm) && Header(norm, tableLog).Ok? && tableLog <= 6
    ensures 4 <= Header(norm, tableLog).value.len <= 4 + 9 * |norm|
  {
    hide WriteFrom;
    Pow2Values();
    ShortHeaderFrom(norm, 0, Pow2(tableLog) + 1, false, StartWith(tableLog));
  }

  lemma StartCum(norm: seq<int>, tableLog: nat)
    requires ValidNorm(norm, tableLog)
    ensures Cum(norm, 0) == 0 < Pow2(tableLog) && norm[..0] == []
  {}

  /** Zeros at the end are not written. */
  lemma {:induction false} TrailingZeros(norm: seq<int>, tableLog: nat, zeros: seq<int>, i: nat, previousIs0: bool, s: Stack)
    requires ValidNorm(norm, tableLog) && norm[|norm| - 1] != 0 && i < |norm| && s.Ok() && Cum(norm, i) < Pow2(tableLog)
    requires forall j :: 0 <= j < |zeros| ==> zeros[j] == 0
    ensures var remaining := Pow2(tableLog) + 1 - Cum(norm, i);
            WriteFrom(norm + zeros, i, remaining, previousIs0, s) == WriteFrom(norm, i, remaining, previousIs0, s)
    decreases |norm| - i
  {
    hide PutZeros, PutCount, Pow2, WriteFrom, Highbit, Shl;
    var remaining, all := Pow2(tableLog) + 1 - Cum(norm, i), norm + zeros;
    var z := if previousIs0 then ZeroRun(norm, i) else 0;
    if previousIs0 { ZeroRunSame(norm, zeros, i); }
    var k := i + z;
    CumZeros(norm, i, z);
    CumGrows(norm, k + 1, |norm|);
    WriteStep(norm, i, remaining, previousIs0, s);
    WriteStep(all, i, remaining, previousIs0, s);
    var t := if previousIs0 then PutZeros(s, z) else s;
    var u := PutCount(t, norm[k], remaining);
    if k + 1 < |norm| {
      TrailingZeros(norm, tableLog, zeros, k + 1, norm[k] == 0, u);
    } else {
      WriteEnd(norm, norm[k] == 0, u);
      WriteStop(all, k + 1, norm[k] == 0, u);
    }
  }

  lemma WriteStop(norm: seq<int>, i: nat, previousIs0: bool, s: Stack)
    requires Counts(norm) && s.Ok() && i <= |norm|
    ensures WriteFrom(norm, i, 1, previousIs0, s) == Ok(s)
  {}

  lemma {:induction false} ZeroRunSame(norm: seq<int>, zeros: seq<int>, i: nat)
    requires i < |norm| && norm[|norm| - 1] != 0
    ensures ZeroRun(norm + zeros, i) == ZeroRun(norm, i) && i + ZeroRun(norm, i) < |norm|
    decreases |norm| - i
  {
    if norm[i] == 0 { ZeroRunSame(norm, zeros, i + 1); }
  }

  lemma TrailingZerosUnwritten(norm: seq<int>, tableLog: nat, zeros: seq<int>)
    requires ValidNorm(norm, tableLog) && norm[|norm| - 1] != 0 && forall j :: 0 <= j < |zeros| ==> zeros[j] == 0
    ensures Counts(norm + zeros) && Header(norm + zeros, tableLog) == Header(norm, tableLog)
  {
    hide WriteFrom, Pow2, Shl, Cum, StartWith;
    StartCum(norm, tableLog);
    TrailingZeros(norm, tableLog, zeros, 0, false, StartWith(tableLog));
  }
}
