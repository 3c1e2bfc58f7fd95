/** `FSE_writeNCount`: the header through a 32-bit register, two bytes at a time. */
module NCountWriter {
  import opened Bits
  import opened BitStream
  import opened Results
  import opened FseSpread
  import opened NCount

  /** `out` bytes are written and `bitCount` bits wait in the register; together they
      are the bits of `s`. */
  ghost predicate Emitted(bytes: seq<Byte>, out: nat, bitStream: nat, bitCount: nat, s: Stack)
  {
    && s.Ok() && out <= |bytes| && out % 2 == 0 && s.len == 8 * out + bitCount
    && bitStream == Shr(s.val, 8 * out) && LeNat(bytes[..out]) == Low(s.val, 8 * out)
  }

  /** Whether the whole header finds room: it is written in pairs of bytes. */
  predicate Room(bits: nat, size: nat) { bits > 0 && 2 * ((bits - 1) / 16) + 2 <= size }

  predicate Full(bits: nat, size: nat) { bits > 0 && !Room(bits, size) }

  /** The register never overflows, so its 32 bits do not cut the sum. */
  lemma EmitAdd(bytes: seq<Byte>, out: nat, bitStream: nat, bitCount: nat, s: Stack, v: nat, w: nat)
    requires Emitted(bytes, out, bitStream, bitCount, s) && v < Pow2(w) && bitCount + w <= 32
    ensures Low(bitStream + Shl(v, bitCount), 32) == bitStream + Shl(v, bitCount)
    ensures Emitted(bytes, out, bitStream + Shl(v, bitCount), bitCount + w, s.Push(v, w))
  {
    hide Low, Shr, Shl, Pow2;
    ShrBound(s.val, 8 * out, bitCount);
    JoinBound(bitStream, v, bitCount, w);
    Pow2Mono(bitCount + w, 32);
    LowSmall(bitStream + Shl(v, bitCount), 32);
    CStream.PushAbove(s, v, w, 8 * out);
  }

  lemma EmitFlush(bytes: seq<Byte>, after: seq<Byte>, out: nat, bitStream: nat, bitCount: nat, s: Stack)
    requires Emitted(bytes, out, bitStream, bitCount, s) && bitCount >= 16 && out + 2 <= |bytes|
    requires after == bytes[..out] + LeBytes(bitStream, 2) + bytes[out + 2..]
    ensures Emitted(after, out + 2, Shr(bitStream, 16), bitCount - 16, s)
  {
    hide Low, Shr, Shl, Pow2;
    TwoBytes(bytes, after, out, bitStream, bitCount, s);
    ShrShr(s.val, 8 * out, 16);
  }

  lemma TwoBytes(bytes: seq<Byte>, after: seq<Byte>, out: nat, bitStream: nat, bitCount: nat, s: Stack)
    requires Emitted(bytes, out, bitStream, bitCount, s) && out + 2 <= |bytes|
    requires after == bytes[..out] + LeBytes(bitStream, 2) + bytes[out + 2..]
    ensures LeNat(after[..out + 2]) == Low(s.val, 8 * (out + 2))
  {
    hide Low, Shr, Shl, Pow2;
    assert after[..out + 2] == bytes[..out] + LeBytes(bitStream, 2);
    LeNatAppend(bytes[..out], LeBytes(bitStream, 2));
    LeNatOfBytes(bitStream, 2);
    LowSplit(s.val, 8 * out, 16);
  }

  /** Writes the low two bytes of the register. */
  method PutTwo(dst: array<Byte>, out: nat, bitStream: nat)
    requires out + 2 <= dst.Length
    modifies dst
    ensures dst[..] == old(dst[..out]) + LeBytes(bitStream, 2) + old(dst[out + 2..])
  {
    assert LeBytes(bitStream, 2) == [bitStream % 256, bitStream / 256 % 256] by {
      assert LeBytes(bitStream / 256, 1) == [bitStream / 256 % 256] + LeBytes(bitStream / 256 / 256, 0);
    }
    dst[out] := bitStream % 256;
    dst[out + 1] := bitStream / 256 % 256;
  }

  lemma PushPush(s: Stack, a: nat, m: nat, b: nat, n: nat)
    requires s.Ok() && a < Pow2(m) && b < Pow2(n)
    ensures a + Shl(b, m) < Pow2(m + n)
    ensures s.Push(a, m).Push(b, n) == s.Push(a + Shl(b, m), m + n)
  {
    hide Shl, Pow2;
    JoinBound(a, b, m, n);
    ShlAdd(a, Shl(b, m), s.len);
    ShlShl(b, m, s.len);
  }

  /** Twenty-four zeros are eight pairs of ones. */
  lemma EightPairs(s: Stack, z: nat)
    requires s.Ok() && z >= 24
    ensures 0xFFFF < Pow2(16) && PutZeros(s, z) == PutZeros(s.Push(0xFFFF, 16), z - 24)
  {
    hide Pow2, Shl;
    Pow2Values();
    FourPairs(s, z);
    FourPairs(s.Push(0xFF, 8), z - 12);
    PushPush(s, 0xFF, 8, 0xFF, 8);
    ShlIsMul(0xFF, 8);
  }

  lemma FourPairs(s: Stack, z: nat)
    requires s.Ok() && z >= 12
    ensures 0xFF < Pow2(8) && PutZeros(s, z) == PutZeros(s.Push(0xFF, 8), z - 12)
  {
    hide Pow2, Shl;
    Pow2Values();
    TwoPairs(s, z);
    TwoPairs(s.Push(0xF, 4), z - 6);
    PushPush(s, 0xF, 4, 0xF, 4);
    ShlIsMul(0xF, 4);
  }

  lemma TwoPairs(s: Stack, z: nat)
    requires s.Ok() && z >= 6
    ensures 0xF < Pow2(4) && PutZeros(s, z) == PutZeros(s.Push(0xF, 4), z - 6)
  {
    hide Pow2, Shl;
    Pow2Values();
    PushPush(s, 3, 2, 3, 2);
    ShlIsMul(3, 2);
  }

  /** A run of `z` zeros. */
  method EmitZeros(dst: array<Byte>, out0: nat, bitStream0: nat, bitCount0: nat, z: nat, ghost s: Stack)
    returns (ok: bool, out: nat, bitStream: nat, bitCount: nat)
    requires s.Ok() && Emitted(dst[..], out0, bitStream0, bitCount0, s) && 1 <= bitCount0 <= 16
    modifies dst
    ensures ok ==> Emitted(dst[..], out, bitStream, bitCount, PutZeros(s, z)) && 1 <= bitCount <= 16
    ensures !ok ==> Full(PutZeros(s, z).len, dst.Length)
  {
    hide Emitted, PutZeros, Low, Shr, Shl, Pow2;
    out, bitStream, bitCount := out0, bitStream0, bitCount0;
    ok := true;
    var left := z;
    ghost var t := s;
    while left >= 24
      invariant 0 <= left && t.Ok() && PutZeros(t, left) == PutZeros(s, z)
      invariant Emitted(dst[..], out, bitStream, bitCount, t) && 1 <= bitCount <= 16
    {
      left := left - 24;
      EightPairs(t, left + 24);
      EmitAdd(dst[..], out, bitStream, bitCount, t, 0xFFFF, 16);
      bitStream := Low(bitStream + Shl(0xFFFF, bitCount), 32);
      t := t.Push(0xFFFF, 16);
      if out + 2 > dst.Length {
        ZerosLength(t, left);
        NoRoom(dst[..], out, bitStream, bitCount + 16, t, PutZeros(t, left).len);
        return false, out, bitStream, bitCount;
      }
      ghost var before := dst[..];
      PutTwo(dst, out, bitStream);
      EmitFlush(before, dst[..], out, bitStream, bitCount + 16, t);
      out := out + 2;
      bitStream := Shr(bitStream, 16);
    }
    ghost var many := left / 3;
    while left >= 3
      invariant 0 <= left < 24 && t.Ok() && PutZeros(t, left) == PutZeros(s, z)
      invariant Emitted(dst[..], out, bitStream, bitCount, t) && many == left / 3 <= 7
      invariant 1 <= bitCount <= 30 - 2 * many
    {
      Pow2Values();
      ZerosMore(t, left);
      EmitAdd(dst[..], out, bitStream, bitCount, t, 3, 2);
      left := left - 3;
      many := many - 1;
      bitStream := Low(bitStream + Shl(3, bitCount), 32);
      bitCount := bitCount + 2;
      t := t.Push(3, 2);
    }
    Pow2Values();
    ZerosLast(t, left);
    EmitAdd(dst[..], out, bitStream, bitCount, t, left, 2);
    bitStream := Low(bitStream + Shl(left, bitCount), 32);
    bitCount := bitCount + 2;
    ok, out, bitStream, bitCount := FlushPair(dst, out, bitStream, bitCount, PutZeros(s, z));
  }

  lemma ZerosMore(s: Stack, z: nat)
    requires s.Ok() && z >= 3
    ensures 3 < Pow2(2) && PutZeros(s, z) == PutZeros(s.Push(3, 2), z - 3)
  {
    Pow2Values();
  }

  lemma ZerosLast(s: Stack, z: nat)
    requires s.Ok() && z < 3
    ensures z < Pow2(2) && PutZeros(s, z) == s.Push(z, 2)
  {
    Pow2Values();
  }

  lemma NoRoom(bytes: seq<Byte>, out: nat, bitStream: nat, bitCount: nat, s: Stack, bits: nat)
    requires Emitted(bytes, out, bitStream, bitCount, s)
    requires bitCount > 16 && out + 2 > |bytes| && bits >= s.len
    ensures Full(bits, |bytes|)
  {}

  /** Writes two bytes as soon as more than 16 bits wait. */
  method FlushPair(dst: array<Byte>, out0: nat, bitStream0: nat, bitCount0: nat, ghost s: Stack)
    returns (ok: bool, out: nat, bitStream: nat, bitCount: nat)
    requires s.Ok() && Emitted(dst[..], out0, bitStream0, bitCount0, s) && 1 <= bitCount0 <= 32
    modifies dst
    ensures ok ==> Emitted(dst[..], out, bitStream, bitCount, s) && 1 <= bitCount <= 16
    ensures !ok ==> Full(s.len, dst.Length)
  {
    hide Emitted, Shr;
    out, bitStream, bitCount := out0, bitStream0, bitCount0;
    if bitCount > 16 {
      if out + 2 > dst.Length {
        NoRoom(dst[..], out, bitStream, bitCount, s, s.len);
        return false, out, bitStream, bitCount;
      }
      ghost var before := dst[..];
      PutTwo(dst, out, bitStream);
      EmitFlush(before, dst[..], out, bitStream, bitCount, s);
      out := out + 2;
      bitStream := Shr(bitStream, 16);
      bitCount := bitCount - 16;
    }
    ok := true;
  }

  lemma {:induction false} LongerFrom(norm: seq<int>, i: nat, remaining: int, previousIs0: bool, s: Stack)
    requires Counts(norm) && i <= |norm| && s.Ok() && remaining >= 1
    requires WriteFrom(norm, i, remaining, previousIs0, s).Ok?
    ensures s.len <= WriteFrom(norm, i, remaining, previousIs0, s).value.len
    decreases |norm| - i
  {
    hide PutZeros, CountField, Pow2;
    if i < |norm| && remaining != 1 {
      var z := if previousIs0 then ZeroRun(norm, i) else 0;
      var count := norm[i + z];
      var t := if previousIs0 then PutZeros(s, z) else s;
      LongerFrom(norm, i + z + 1, remaining - Weight(count), count == 0, PutCount(t, count, remaining));
      if previousIs0 { ZerosLength(s, z); }
    }
  }

  /** Halves `threshold` until `remaining` reaches it. */
  method Rescale(threshold0: nat, nbBits0: nat, remaining: nat) returns (threshold: nat, nbBits: nat)
    requires remaining >= 1 && nbBits0 > 0 && threshold0 == Pow2(nbBits0 - 1) && remaining < 2 * threshold0
    ensures Scaled(threshold, nbBits, remaining)
  {
    threshold, nbBits := threshold0, nbBits0;
    while remaining < threshold
      invariant nbBits > 0 && threshold == Pow2(nbBits - 1) && remaining < 2 * threshold
      decreases nbBits
    {
      nbBits := nbBits - 1;
      threshold := threshold / 2;
    }
    HighbitUnique(remaining, nbBits - 1);
  }

  /** One count. */
  method EmitCount(dst: array<Byte>, out0: nat, bitStream0: nat, bitCount0: nat, count0: int, remaining: nat,
                   threshold: nat, nbBits: nat, ghost s: Stack)
    returns (ok: bool, out: nat, bitStream: nat, bitCount: nat)
    requires s.Ok() && Emitted(dst[..], out0, bitStream0, bitCount0, s) && 1 <= bitCount0 <= 16
    requires Scaled(threshold, nbBits, remaining) && -1 <= count0 < remaining <= Pow2(MAX_TABLELOG) + 1
    modifies dst
    ensures ok ==> Emitted(dst[..], out, bitStream, bitCount, PutCount(s, count0, remaining)) && 1 <= bitCount <= 16
    ensures !ok ==> Full(PutCount(s, count0, remaining).len, dst.Length)
  {
    hide Emitted, Low, Shl, Pow2;
    ghost var f := CountField(count0, remaining);
    NarrowField(remaining);
    var max := 2 * threshold - 1 - remaining;
    var count := count0 + 1;
    if count >= threshold { count := count + max; }
    EmitAdd(dst[..], out0, bitStream0, bitCount0, s, f.value, f.width);
    bitStream := Low(bitStream0 + Shl(count, bitCount0), 32);
    bitCount := bitCount0 + nbBits - (if count < max then 1 else 0);
    ok, out, bitStream, bitCount := FlushPair(dst, out0, bitStream, bitCount, PutCount(s, count0, remaining));
  }

  lemma NarrowField(remaining: nat)
    requires 1 <= remaining <= Pow2(MAX_TABLELOG) + 1
    ensures Highbit(remaining) <= MAX_TABLELOG
  {
    HighbitBounds(remaining);
    if Highbit(remaining) > MAX_TABLELOG {
      Pow2Mono(MAX_TABLELOG + 1, Highbit(remaining));
      Pow2Values();
    }
  }

  /** What writing a header gives for a buffer of this size. */
  ghost predicate Wrote(r: Result<nat>, goal: Result<Stack>, bytes: seq<Byte>)
  {
    match goal
    case Err(_) => r.Err?
    case Ok(f) =>
      if Room(f.len, |bytes|) then
        r == Ok((f.len + 7) / 8) && r.value <= |bytes| && f.Ok() && LeNat(bytes[..r.value]) == f.val
      else r == Err(DstSizeTooSmall)
  }

  /** `FSE_writeNCount`, checking the room for every two bytes: the bits of `Header`,
      padded to whole bytes. */
  method WriteNCount(dst: array<Byte>, norm: seq<int>, tableLog: nat) returns (r: Result<nat>)
    requires Counts(norm)
    modifies dst
    ensures Wrote(r, Header(norm, tableLog), dst[..])
  {
    if tableLog > MAX_TABLELOG { return Err(TableLogTooLarge); }
    if tableLog < MIN_TABLELOG { return Err(Generic); }
    r := WriteGeneric(dst, norm, tableLog);
  }

  /** `FSE_writeNCount_generic`. */
  method WriteGeneric(dst: array<Byte>, norm: seq<int>, tableLog: nat) returns (r: Result<nat>)
    requires Counts(norm) && MIN_TABLELOG <= tableLog <= MAX_TABLELOG
    modifies dst
    ensures Wrote(r, Header(norm, tableLog), dst[..])
  {
    hide Emitted, WriteFrom, PutZeros, PutCount, Pow2, Low, Shr, Shl, Highbit, Scaled, Room;
    ghost var goal := Header(norm, tableLog);
    ghost var s := StartWith(tableLog);
    EmitStart(dst[..], tableLog);
    var out: nat, bitStream: nat, bitCount: nat := 0, tableLog - MIN_TABLELOG, 4;
    var remaining: nat := Pow2(tableLog) + 1;
    var threshold: nat, nbBits: nat := Pow2(tableLog), tableLog + 1;
    ScaledStart(tableLog);
    var symbol, previousIs0 := 0, false;
    while symbol < |norm| && remaining > 1
      invariant 0 <= symbol <= |norm| && 1 <= remaining <= Pow2(MAX_TABLELOG) + 1
      invariant s.Ok() && Emitted(dst[..], out, bitStream, bitCount, s) && 1 <= bitCount <= 16
      invariant goal == WriteFrom(norm, symbol, remaining, previousIs0, s)
      invariant Scaled(threshold, nbBits, remaining)
      decreases |norm| - symbol
    {
      ghost var i := symbol;
      ghost var t := s;
      if previousIs0 {
        var start := symbol;
        while symbol < |norm| && norm[symbol] == 0
          invariant start <= symbol <= |norm| && (symbol - start) + ZeroRun(norm, symbol) == ZeroRun(norm, start)
        {
          symbol := symbol + 1;
        }
        if symbol == |norm| {
          RunToEnd(norm, i, remaining, s);
          break;
        }
        t := PutZeros(s, symbol - start);
        var ok;
        ok, out, bitStream, bitCount := EmitZeros(dst, out, bitStream, bitCount, symbol - start, s);
        if !ok {
          NeverRoom(norm, i, remaining, previousIs0, s, t.len, dst.Length);
          return Err(DstSizeTooSmall);
        }
      }
      var count := norm[symbol];
      symbol := symbol + 1;
      if remaining - Weight(count) < 1 {
        TooMuch(norm, i, remaining, previousIs0, s);
        return Err(Generic);
      }
      WriteStep(norm, i, remaining, previousIs0, s);
      s := PutCount(t, count, remaining);
      var ok;
      ok, out, bitStream, bitCount := EmitCount(dst, out, bitStream, bitCount, count, remaining, threshold, nbBits, t);
      remaining := remaining - Weight(count);
      if !ok {
        NeverRoom(norm, symbol, remaining, count == 0, s, s.len, dst.Length);
        return Err(DstSizeTooSmall);
      }
      ScaledBound(threshold, nbBits, remaining + Weight(count));
      threshold, nbBits := Rescale(threshold, nbBits, remaining);
      previousIs0 := count == 0;
    }
    if remaining != 1 {
      assert symbol == |norm| ==> goal.Err? by { WriteLeft(norm, symbol, remaining, previousIs0, s); }
      return Err(Generic);
    }
    assert goal == Ok(s) by { WriteStop(norm, symbol, previousIs0, s); }
    if out + 2 > dst.Length {
      FinalRoom(dst[..], out, bitStream, bitCount, s);
      return Err(DstSizeTooSmall);
    }
    ghost var before := dst[..];
    PutTwo(dst, out, bitStream);
    FinalBytes(before, dst[..], out, bitStream, bitCount, s);
    out := out + (bitCount + 7) / 8;
    return Ok(out);
  }

  /** A header that runs out of symbols with cells left is an error. */
  lemma RunToEnd(norm: seq<int>, i: nat, remaining: nat, s: Stack)
    requires Counts(norm) && i < |norm| && s.Ok() && remaining > 1 && i + ZeroRun(norm, i) == |norm|
    ensures WriteFrom(norm, i, remaining, true, s).Err?
  {}

  lemma WriteLeft(norm: seq<int>, i: nat, remaining: nat, previousIs0: bool, s: Stack)
    requires Counts(norm) && i <= |norm| && s.Ok() && remaining > 1
    ensures i == |norm| ==> WriteFrom(norm, i, remaining, previousIs0, s).Err?
  {}

  lemma TooMuch(norm: seq<int>, i: nat, remaining: nat, previousIs0: bool, s: Stack)
    requires Counts(norm) && i < |norm| && s.Ok() && remaining > 1
    requires var z := if previousIs0 then ZeroRun(norm, i) else 0;
             i + z < |norm| && remaining - Weight(norm[i + z]) < 1
    ensures WriteFrom(norm, i, remaining, previousIs0, s).Err?
  {
    hide ZeroRun, PutZeros, PutCount;
  }

  /** No room for the first bits is no room for the whole. */
  lemma NeverRoom(norm: seq<int>, i: nat, remaining: nat, previousIs0: bool, s: Stack, bits: nat, size: nat)
    requires Counts(norm) && i <= |norm| && s.Ok() && remaining >= 1 && Full(bits, size)
    requires bits == s.len || (i < |norm| && remaining > 1 && previousIs0 && bits == PutZeros(s, ZeroRun(norm, i)).len)
    ensures var w := WriteFrom(norm, i, remaining, previousIs0, s); w.Ok? ==> Full(w.value.len, size)
  {
    hide PutZeros, ZeroRun, CountField, Pow2;
    var w := WriteFrom(norm, i, remaining, previousIs0, s);
    if w.Ok? {
      LongerFrom(norm, i, remaining, previousIs0, s);
      if bits != s.len {
        var z := ZeroRun(norm, i);
        var t, count := PutZeros(s, z), norm[i + z];
        LongerFrom(norm, i + z + 1, remaining - Weight(count), count == 0, PutCount(t, count, remaining));
      }
      RoomLess(bits, w.value.len, size);
    }
  }

  lemma RoomLess(a: nat, b: nat, size: nat)
    requires a <= b && Full(a, size)
    ensures Full(b, size)
  {}

  lemma ScaledBound(threshold: nat, nbBits: nat, remaining: nat)
    requires Scaled(threshold, nbBits, remaining)
    ensures nbBits > 0 && threshold == Pow2(nbBits - 1) && remaining < 2 * threshold
  {
    HighbitBounds(remaining);
  }

  lemma FinalRoom(bytes: seq<Byte>, out: nat, bitStream: nat, bitCount: nat, s: Stack)
    requires Emitted(bytes, out, bitStream, bitCount, s) && 1 <= bitCount <= 16 && out + 2 > |bytes|
    ensures Full(s.len, |bytes|)
  {}

  lemma FinalBytes(bytes: seq<Byte>, after: seq<Byte>, out: nat, bitStream: nat, bitCount: nat, s: Stack)
    requires Emitted(bytes, out, bitStream, bitCount, s) && 1 <= bitCount <= 16 && out + 2 <= |bytes|
    requires after == bytes[..out] + LeBytes(bitStream, 2) + bytes[out + 2..]
    ensures Room(s.len, |after|) && (s.len + 7) / 8 == out + (bitCount + 7) / 8 <= |after|
    ensures s.Ok() && LeNat(after[..out + (bitCount + 7) / 8]) == s.val
  {
    hide Low, Shr, Shl, Pow2;
    TwoBytes(bytes, after, out, bitStream, bitCount, s);
    var size := out + (bitCount + 7) / 8;
    assert after[..size] == after[..out + 2][0..size];
    LeNatSlice(after[..out + 2], 0, size);
    ShiftNone(LeNat(after[..out + 2]));
    LowLow(s.val, 8 * size, 8 * (out + 2) - 8 * size);
    Pow2Mono(s.len, 8 * size);
    LowSmall(s.val, 8 * size);
  }

  lemma EmitStart(bytes: seq<Byte>, tableLog: nat)
    requires MIN_TABLELOG <= tableLog <= MAX_TABLELOG
    ensures Emitted(bytes, 0, tableLog - MIN_TABLELOG, 4, StartWith(tableLog))
  {
    ShiftNone(tableLog - MIN_TABLELOG);
    assert bytes[..0] == [];
  }

  lemma ScaledStart(tableLog: nat)
    requires MIN_TABLELOG <= tableLog <= MAX_TABLELOG
    ensures Scaled(Pow2(tableLog), tableLog + 1, Pow2(tableLog) + 1) && Pow2(tableLog) <= Pow2(MAX_TABLELOG)
  {
    hide Highbit, Pow2;
    Pow2Values();
    Pow2Mono(1, tableLog);
    Pow2Next(tableLog);
    HighbitUnique(Pow2(tableLog) + 1, tableLog);
    Pow2Mono(tableLog, MAX_TABLELOG);
  }
}
