/** `FSE_readNCount_body`: a 32-bit window that moves over the header, and stays at
    the last four bytes when it gets there. */
module NCountReader {
  import opened Bits
  import opened BitStream
  import opened Results
  import opened FseSpread
  import opened NCount
  import opened NCountWrap
  import opened NCountWriter

  // ----- the window -----

  /** The window starts `bitCount` bits into the four bytes at `ip`.  Before the end
      it has at least 25 bits to show; at the end it shows all there are. */
  ghost predicate Window(src: seq<Byte>, ip: nat, bitStream: nat, bitCount: nat)
  {
    && ip + 4 <= |src| && bitCount < 32 && (bitCount < 8 || ip + 4 == |src|)
    && bitStream == Shr(LeNat(src[ip..ip + 4]), bitCount)
  }

  lemma Shows(src: seq<Byte>, ip: nat, bitStream: nat, bitCount: nat, n: nat)
    requires Window(src, ip, bitStream, bitCount) && n <= 25
    ensures Low(bitStream, n) == Low(Shr(LeNat(src), 8 * ip + bitCount), n)
    ensures bitCount < 32 && bitStream < Pow2(32 - bitCount)
  {
    hide Low, Shr, Pow2;
    var x, w := LeNat(src), 32 - bitCount;
    var y := Shr(x, 8 * ip + bitCount);
    LeNatSlice(src, ip, ip + 4);
    LowLow(Shr(x, 8 * ip), bitCount, w);
    ShrShr(x, 8 * ip, bitCount);
    LowBound(y, w);
    if bitCount < 8 {
      LowLow(y, n, w - n);
    } else {
      LeNatBound(src);
      ShrBound(x, 8 * ip + bitCount, w);
      LowSmall(y, w);
    }
  }

  /** Moves the window to a bit position.  A position after the end wraps round. */
  method Move(src: seq<Byte>, ip0: nat, bitCount0: nat) returns (ip: nat, bitCount: nat, bitStream: nat)
    requires |src| >= 8 && ip0 + 4 <= |src| && (ip0 + 7 <= |src| ==> bitCount0 < 32)
    ensures Window(src, ip, bitStream, bitCount) && 8 * ip + bitCount == WrapBack(8 * ip0 + bitCount0, 8 * |src|)
  {
    hide Shr;
    if ip0 + 7 <= |src| || ip0 + bitCount0 / 8 <= |src| - 4 {
      ip := ip0 + bitCount0 / 8;
      bitCount := bitCount0 % 8;
    } else {
      bitCount := (bitCount0 - 8 * (|src| - 4 - ip0)) % 32;
      ip := |src| - 4;
    }
    bitStream := Shr(LeNat(src[ip..ip + 4]), bitCount);
  }

  // ----- runs of zeros -----

  function TrailingOnes(x: nat): nat
  {
    if x % 2 == 1 then 1 + TrailingOnes(x / 2) else 0
  }

  /** `ZSTD_countTrailingZeros32(~bitStream | 0x80000000) >> 1`. */
  function Repeats(bitStream: nat): nat
  {
    (if TrailingOnes(bitStream) < 31 then TrailingOnes(bitStream) else 31) / 2
  }

  lemma {:induction false} ThreesAreOnes(x: nat)
    ensures Threes(x) == TrailingOnes(x) / 2
  {
    var y := x / 2;
    assert x % 4 == 3 <==> x % 2 == 1 && y % 2 == 1;
    if x % 4 == 3 {
      ThreesAreOnes(x / 4);
      assert y / 2 == x / 4;
      assert TrailingOnes(x) == 2 + TrailingOnes(x / 4);
    } else {
      assert TrailingOnes(x) < 2;
    }
  }

  /** The first `n` pairs decide everything about a run that ends in them. */
  lemma {:induction false} SamePairs(x: nat, y: nat, n: nat)
    requires Low(x, 2 * n) == Low(y, 2 * n)
    ensures Threes(x) >= n <==> Threes(y) >= n
    ensures Threes(x) < n ==> Threes(y) == Threes(x) && Shr(x, 2 * Threes(x)) % 4 == Shr(y, 2 * Threes(x)) % 4
    decreases n
  {
    hide Low, Shr;
    if n > 0 {
      LowLow(x, 2, 2 * (n - 1));
      LowLow(y, 2, 2 * (n - 1));
      LowTwo(x);
      LowTwo(y);
      if x % 4 == 3 {
        SamePairs(x / 4, y / 4, n - 1);
        ShrShr(x, 2, 2 * Threes(x / 4));
        ShrShr(y, 2, 2 * Threes(x / 4));
      } else {
        ShiftNone(x);
        ShiftNone(y);
      }
    }
  }

  /** What the window says about a run: either it shows twelve pairs of ones, or it
      shows the whole run. */
  lemma SeeRun(src: seq<Byte>, ip: nat, bitStream: nat, bitCount: nat)
    requires Window(src, ip, bitStream, bitCount)
    ensures var y, r := Shr(LeNat(src), 8 * ip + bitCount), Repeats(bitStream);
      if r >= 12 then bitCount <= 8 && Threes(y) >= 12
      else Threes(y) < 12 && GetZeros(y) == (3 * r + Shr(bitStream, 2 * r) % 4, 2 * r + 2)
  {
    hide Low, Shr, Pow2, Window;
    var y := Shr(LeNat(src), 8 * ip + bitCount);
    Shows(src, ip, bitStream, bitCount, 24);
    ThreesAreOnes(bitStream);
    SamePairs(bitStream, y, 12);
    if Repeats(bitStream) >= 12 {
      ThreesSize(bitStream, 12);
      if bitCount > 8 { Pow2Mono(32 - bitCount, 23); }
      Pow2Next(23);
      Pow2Mono(1, 23);
    }
  }

  lemma Inside(src: seq<Byte>, ip: nat, bitStream: nat, bitCount: nat)
    requires |src| >= 8 && Window(src, ip, bitStream, bitCount)
    ensures Within(LeNat(src), 8 * ip + bitCount, 8 * |src|)
  {
    hide LeNat, Pow2;
    LeNatBound(src);
  }

  /** A run of zeros, three at a time, and the last pair. */
  method SkipZeros(src: seq<Byte>, ip0: nat, bitStream0: nat, bitCount0: nat, charnum0: nat)
    returns (ip: nat, bitCount: nat, charnum: nat)
    requires |src| >= 8 && Window(src, ip0, bitStream0, bitCount0)
    ensures ip + 4 <= |src| && (ip + 7 <= |src| ==> bitCount < 32) && charnum >= charnum0
    ensures Within(LeNat(src), 8 * ip0 + bitCount0, 8 * |src|)
    ensures (charnum - charnum0, 8 * ip + bitCount) == GetRun(LeNat(src), 8 * ip0 + bitCount0, 8 * |src|)
  {
    hide Shr, GetZeros, Repeats, LeNat, Pow2, Threes;
    ghost var x, limit := LeNat(src), 8 * |src|;
    Inside(src, ip0, bitStream0, bitCount0);
    ghost var (z, at) := GetRun(x, 8 * ip0 + bitCount0, limit);
    var bitStream := bitStream0;
    ip, bitCount, charnum := ip0, bitCount0, charnum0;
    var repeats := Repeats(bitStream);
    while repeats >= 12
      invariant Window(src, ip, bitStream, bitCount) && repeats == Repeats(bitStream) && charnum >= charnum0
      invariant Within(x, 8 * ip + bitCount, limit)
      invariant var run := GetRun(x, 8 * ip + bitCount, limit); charnum + run.0 == charnum0 + z && run.1 == at
      decreases |src| - ip, if bitCount == 8 then 2 else if bitCount < 8 then 1 else 0
    {
      SeeRun(src, ip, bitStream, bitCount);
      charnum := charnum + 3 * 12;
      if ip + 7 <= |src| {
        ip := ip + 3;
      } else {
        bitCount := (bitCount - 8 * (|src| - 7 - ip)) % 32;
        ip := |src| - 4;
      }
      bitStream := Shr(LeNat(src[ip..ip + 4]), bitCount);
      repeats := Repeats(bitStream);
    }
    SeeRun(src, ip, bitStream, bitCount);
    charnum := charnum + 3 * repeats;
    bitStream := Shr(bitStream, 2 * repeats);
    bitCount := bitCount + 2 * repeats;
    charnum := charnum + bitStream % 4;
    bitCount := bitCount + 2;
  }

  // ----- counts -----

  /** `FSE_readNCount_body`'s reading of one count from the window. */
  function WindowCount(bitStream: nat, threshold: nat, nbBits: nat, remaining: nat): (int, nat)
    requires nbBits > 0
  {
    var max := 2 * threshold - 1 - remaining;
    if Low(bitStream, nbBits - 1) < max then (Low(bitStream, nbBits - 1) - 1, nbBits - 1)
    else
      var count := Low(bitStream, nbBits);
      ((if count >= threshold then count - max else count) - 1, nbBits)
  }

  lemma SeeCount(src: seq<Byte>, ip: nat, bitStream: nat, bitCount: nat, threshold: nat, nbBits: nat, remaining: nat)
    requires Window(src, ip, bitStream, bitCount) && Scaled(threshold, nbBits, remaining) && remaining > 1 && nbBits <= 16
    ensures WindowCount(bitStream, threshold, nbBits, remaining) == GetCount(bitStream, remaining)
    ensures GetCount(bitStream, remaining) == GetCount(Shr(LeNat(src), 8 * ip + bitCount), remaining)
  {
    hide Low, Shr, Pow2, Window, Highbit;
    var y := Shr(LeNat(src), 8 * ip + bitCount);
    Shows(src, ip, bitStream, bitCount, nbBits);
    LowLow(bitStream, nbBits - 1, 1);
    LowLow(y, nbBits - 1, 1);
  }

  /** What the reader reports besides the counts. */
  datatype Info = Info(maxSymbolValue: nat, tableLog: nat, size: nat)

  /** The state between counts: everything up to the window is read. */
  ghost predicate Reading(src: seq<Byte>, ip: nat, bitStream: nat, bitCount: nat, remaining: nat, previous0: bool,
                          norm: seq<int>, tableLog: nat, cap: nat, goal: Result<Parsed>)
  {
    && |src| >= 8 && Window(src, ip, bitStream, bitCount) && 1 < remaining <= Pow2(TABLELOG_ABSOLUTE_MAX) + 1 && |norm| < cap
    && Within(LeNat(src), 8 * ip + bitCount, 8 * |src|)
    && goal == WrapFrom(LeNat(src), 8 * ip + bitCount, remaining, previous0, norm, tableLog, cap, 8 * |src|)
  }

  /** The state after the loop: either all cells are handed out, or some were left
      when the symbols ran out. */
  ghost predicate Finished(src: seq<Byte>, ip: nat, bitCount: nat, remaining: nat, norm: seq<int>, tableLog: nat,
                           cap: nat, goal: Result<Parsed>)
  {
    && ip + 4 <= |src| && (remaining == 1 ==> 0 < |norm| <= cap && (ip + 4 < |src| ==> bitCount < 32))
    && goal == if remaining != 1 || 8 * ip + bitCount > 8 * |src| then Err(CorruptionDetected)
               else Ok(Parsed(norm, tableLog, 8 * ip + bitCount))
  }

  /** The counts so far, and zeros after them. */
  ghost predicate Holds(counter: seq<int>, norm: seq<int>)
  {
    |norm| <= |counter| && counter == norm + Zeros(|counter| - |norm|)
  }

  /** Counts that add up to what was handed out, whatever bytes they came from. */
  ghost predicate AddsUp(norm: seq<int>, tableLog: nat, remaining: nat)
  {
    Counts(norm) && Cum(norm, |norm|) + remaining == Pow2(tableLog) + 1
  }

  lemma AddCount(norm: seq<int>, tableLog: nat, remaining: nat, z: nat, count: int)
    requires AddsUp(norm, tableLog, remaining) && -1 <= count && Weight(count) <= remaining
    ensures AddsUp(norm + Zeros(z) + [count], tableLog, remaining - Weight(count))
  {
    hide Pow2;
    var more := norm + Zeros(z) + [count];
    CumPrefix(norm, Zeros(z) + [count], |norm|);
    assert norm + (Zeros(z) + [count]) == more;
    CumZeros(more, |norm|, z);
  }

  lemma {:induction false} CumPrefix(a: seq<int>, b: seq<int>, k: nat)
    requires k <= |a|
    ensures Cum(a + b, k) == Cum(a, k)
    decreases k
  {
    if k > 0 { CumPrefix(a, b, k - 1); }
  }

  lemma StoreCount(counter: seq<int>, norm: seq<int>, z: nat, count: int)
    requires Holds(counter, norm) && |norm| + z < |counter|
    ensures Holds(counter[|norm| + z := count], norm + Zeros(z) + [count])
  {}

  /** The scale after a count, by the highest bit of what remains. */
  method Follow(threshold0: nat, nbBits0: nat, ghost remaining0: nat, remaining: nat) returns (threshold: nat, nbBits: nat)
    requires Scaled(threshold0, nbBits0, remaining0) && 1 < remaining <= remaining0
    ensures Scaled(threshold, nbBits, remaining)
  {
    hide Pow2, Highbit;
    HighbitBounds(remaining0);
    threshold, nbBits := threshold0, nbBits0;
    if remaining < threshold {
      nbBits := Highbit(remaining) + 1;
      threshold := Pow2(nbBits - 1);
    } else {
      HighbitUnique(remaining, nbBits - 1);
    }
  }

  lemma NarrowScale(threshold: nat, nbBits: nat, remaining: nat)
    requires Scaled(threshold, nbBits, remaining) && remaining <= Pow2(TABLELOG_ABSOLUTE_MAX) + 1
    ensures 0 < nbBits <= 16
  {
    hide Pow2, Highbit;
    HighbitBounds(remaining);
    Pow2Mono(1, 15);
    Pow2Values();
    if nbBits > 16 { Pow2Mono(16, nbBits - 1); }
  }

  /** The zeros before the next count, when a zero was read last. */
  method RunBefore(src: seq<Byte>, ip0: nat, bitStream0: nat, bitCount0: nat, previous0: bool, charnum0: nat, cap: nat)
    returns (stop: bool, ip: nat, bitStream: nat, bitCount: nat, charnum: nat)
    requires |src| >= 8 && Window(src, ip0, bitStream0, bitCount0) && charnum0 < cap
    ensures charnum >= charnum0 && (stop <==> charnum >= cap) && ip + 4 <= |src|
    ensures Within(LeNat(src), 8 * ip0 + bitCount0, 8 * |src|)
    ensures var (z, at) := if previous0 then GetRun(LeNat(src), 8 * ip0 + bitCount0, 8 * |src|) else (0, 8 * ip0 + bitCount0);
      charnum == charnum0 + z && (!stop ==> Window(src, ip, bitStream, bitCount) && 8 * ip + bitCount == WrapBack(at, 8 * |src|))
  {
    hide Window, GetRun, Shr, Pow2;
    ip, bitStream, bitCount, charnum := ip0, bitStream0, bitCount0, charnum0;
    Inside(src, ip, bitStream, bitCount);
    WindowRoom(src, ip, bitStream, bitCount);
    if previous0 {
      ip, bitCount, charnum := SkipZeros(src, ip, bitStream, bitCount, charnum);
      if charnum >= cap { return true, ip, bitStream, bitCount, charnum; }
      ip, bitCount, bitStream := Move(src, ip, bitCount);
      WindowRoom(src, ip, bitStream, bitCount);
    }
    stop := charnum >= cap;
  }

  lemma WindowRoom(src: seq<Byte>, ip: nat, bitStream: nat, bitCount: nat)
    requires Window(src, ip, bitStream, bitCount)
    ensures ip + 4 <= |src| && bitCount < 32 && (ip + 4 < |src| ==> bitCount < 8)
  {}

  /** The loop of `FSE_readNCount_body`. */
  method ReadCounts(counter: array<int>, src: seq<Byte>, tableLog: nat, ghost goal: Result<Parsed>)
    returns (ip: nat, bitCount: nat, remaining: nat, charnum: nat, ghost norm: seq<int>)
    requires |src| >= 8 && counter.Length > 0 && MIN_TABLELOG <= tableLog <= TABLELOG_ABSOLUTE_MAX
    requires Holds(counter[..], []) && Within(LeNat(src), 4, 8 * |src|) && Pow2(tableLog) > 0
    requires goal == WrapFrom(LeNat(src), 4, Pow2(tableLog) + 1, false, [], tableLog, counter.Length, 8 * |src|)
    modifies counter
    ensures Finished(src, ip, bitCount, remaining, norm, tableLog, counter.Length, goal)
    ensures remaining >= 1 && (remaining == 1 ==> Holds(counter[..], norm) && charnum == |norm|)
    ensures AddsUp(norm, tableLog, remaining) && ip + 4 <= |src|
  {
    hide Window, GetRun, GetCount, Shr, Low, Pow2, WrapFrom, Highbit, Scaled, Holds, AddsUp, WrapBack;
    var cap := counter.Length;
    ip, bitCount, charnum, norm := 0, 4, 0, [];
    var bitStream := Shr(LeNat(src[..4]), 4);
    remaining := Pow2(tableLog) + 1;
    var threshold: nat, nbBits: nat := Pow2(tableLog), tableLog + 1;
    StartScale(tableLog);
    StartWindow(src, bitStream);
    NothingYet(tableLog);
    var previous0 := false;
    while true
      invariant Reading(src, ip, bitStream, bitCount, remaining, previous0, norm, tableLog, cap, goal)
      invariant charnum == |norm| && Holds(counter[..], norm) && Scaled(threshold, nbBits, remaining)
      invariant AddsUp(norm, tableLog, remaining)
      decreases cap - charnum
    {
      ghost var pos := 8 * ip + bitCount;
      ghost var at := if previous0 then GetRun(LeNat(src), pos, 8 * |src|).1 else pos;
      var stop, z;
      stop, ip, bitStream, bitCount, z := RunBefore(src, ip, bitStream, bitCount, previous0, charnum, cap);
      if stop {
        RunTooLong(LeNat(src), pos, remaining, previous0, norm, tableLog, cap, 8 * |src|);
        return;
      }
      NarrowScale(threshold, nbBits, remaining);
      SeeCount(src, ip, bitStream, bitCount, threshold, nbBits, remaining);
      var (count, width) := WindowCount(bitStream, threshold, nbBits, remaining);
      WrapStep(LeNat(src), pos, remaining, previous0, norm, tableLog, cap, 8 * |src|, z - charnum, at, count, width);
      CountRange(bitStream, remaining);
      WindowRoom(src, ip, bitStream, bitCount);
      StoreCount(counter[..], norm, z - charnum, count);
      AddCount(norm, tableLog, remaining, z - charnum, count);
      bitCount := bitCount + width;
      ghost var before := remaining;
      remaining := remaining - Weight(count);
      counter[z] := count;
      norm := norm + Zeros(z - charnum) + [count];
      charnum := z + 1;
      previous0 := count == 0;
      if remaining <= 1 || charnum >= cap { return; }
      threshold, nbBits := Follow(threshold, nbBits, before, remaining);
      ip, bitCount, bitStream := Move(src, ip, bitCount);
    }
  }

  lemma NothingYet(tableLog: nat)
    ensures AddsUp([], tableLog, Pow2(tableLog) + 1)
  {}

  lemma CountRange(bitStream: nat, remaining: nat)
    requires remaining > 1
    ensures var (count, width) := GetCount(bitStream, remaining);
            -1 <= count < remaining && 0 < width && 1 <= remaining - Weight(count) <= remaining
  {}

  lemma StartScale(tableLog: nat)
    requires MIN_TABLELOG <= tableLog <= TABLELOG_ABSOLUTE_MAX
    ensures Scaled(Pow2(tableLog), tableLog + 1, Pow2(tableLog) + 1) && Pow2(tableLog) <= Pow2(TABLELOG_ABSOLUTE_MAX)
  {
    hide Highbit, Pow2;
    Pow2Values();
    Pow2Mono(1, tableLog);
    Pow2Next(tableLog);
    HighbitUnique(Pow2(tableLog) + 1, tableLog);
    Pow2Mono(tableLog, TABLELOG_ABSOLUTE_MAX);
  }

  lemma StartWindow(src: seq<Byte>, bitStream: nat)
    requires |src| >= 8 && bitStream == Shr(LeNat(src[..4]), 4)
    ensures Window(src, 0, bitStream, 4)
  {
    assert src[..4] == src[0..4];
  }

  /** What reading a buffer of `size` bytes gives. */
  ghost predicate Reads(r: Result<Info>, goal: Result<Parsed>, counter: seq<int>, size: nat)
  {
    match goal
    case Err(e) => r == Err(e)
    case Ok(p) =>
      if (p.bits + 7) / 8 > size then r == Err(CorruptionDetected)
      else |p.norm| > 0 && r == Ok(Info(|p.norm| - 1, p.tableLog, (p.bits + 7) / 8)) && Holds(counter, p.norm)
  }

  /** What the code makes of a buffer of at least eight bytes. */
  ghost function Goal(src: seq<Byte>, cap: nat): Result<Parsed>
    requires cap > 0 && |src| >= 8
  {
    LeNatBound(src);
    WrapHeader(LeNat(src), cap, 8 * |src|)
  }

  /** What holds of every header that is accepted. */
  ghost predicate Sound(info: Info, counter: seq<int>, size: nat)
  {
    var n := info.maxSymbolValue + 1;
    && n <= |counter| && info.size <= size && MIN_TABLELOG <= info.tableLog <= TABLELOG_ABSOLUTE_MAX
    && Counts(counter[..n]) && Cum(counter[..n], n) == Pow2(info.tableLog)
  }

  /** A short buffer is read as if zeros followed it. */
  function Padded(src: seq<Byte>): (p: seq<Byte>)
    ensures |p| >= 8 && |p| >= |src| && p[..|src|] == src
  {
    if |src| < 8 then src + seq(8 - |src|, _ => 0) else src
  }

  /** `FSE_readNCount` into a table of `counter.Length` symbols: the reader at one bit
      position, with the wrap. */
  method ReadNCount(counter: array<int>, src: seq<Byte>) returns (r: Result<Info>)
    requires counter.Length > 0
    modifies counter
    ensures Reads(r, Goal(Padded(src), counter.Length), counter[..], |src|)
    ensures r.Ok? ==> Sound(r.value, counter[..], |src|)
  {
    hide WrapHeader, LeNat, Holds, Cum;
    if |src| < 8 {
      var buffer := src + seq(8 - |src|, _ => 0);
      r := ReadBody(counter, buffer);
      if r.Ok? && r.value.size > |src| { return Err(CorruptionDetected); }
    } else {
      r := ReadBody(counter, src);
    }
  }

  /** `FSE_readNCount_body` on at least eight bytes. */
  method ReadBody(counter: array<int>, src: seq<Byte>) returns (r: Result<Info>)
    requires counter.Length > 0 && |src| >= 8
    modifies counter
    ensures Reads(r, Goal(src, counter.Length), counter[..], |src|)
    ensures r.Ok? ==> Sound(r.value, counter[..], |src|)
  {
    hide LeNat, Low, Pow2, WrapFrom, Cum;
    forall i | 0 <= i < counter.Length { counter[i] := 0; }
    assert Holds(counter[..], []);
    StartLog(src);
    var tableLog := Low(LeNat(src[..4]), 4) + MIN_TABLELOG;
    if tableLog > TABLELOG_ABSOLUTE_MAX { return Err(TableLogTooLarge); }
    ghost var goal := Goal(src, counter.Length);
    LeNatBound(src);
    StartRoom(tableLog);
    var ip, bitCount, remaining, charnum; ghost var norm;
    ip, bitCount, remaining, charnum, norm := ReadCounts(counter, src, tableLog, goal);
    if remaining != 1 { return Err(CorruptionDetected); }
    if charnum > counter.Length { return Err(MaxSymbolValueTooSmall); }
    if bitCount > 32 { return Err(CorruptionDetected); }
    assert counter[..charnum] == norm;
    return Ok(Info(charnum - 1, tableLog, ip + (bitCount + 7) / 8));
  }

  lemma StartLog(src: seq<Byte>)
    requires |src| >= 8
    ensures Low(LeNat(src[..4]), 4) == Low(LeNat(src), 4)
  {
    hide Low;
    assert src[..4] == src[0..4];
    LeNatSlice(src, 0, 4);
    ShiftNone(LeNat(src));
    LowLow(LeNat(src), 4, 28);
  }

  /** Eight bytes in which the plain reader overruns, and which the code accepts. */
  lemma AcceptedBytes(src: seq<Byte>, counter: seq<int>, r: Result<Info>)
    requires src == [0xf2, 0xc9, 0xb2, 0xc4] + [0x54, 0x14, 0x2e, 0x82] && |counter| == 256
    requires Reads(r, Goal(src, 256), counter, 8)
    ensures ReadHeader(LeNat(src), 256, 64).Overrun?
    ensures r == Ok(Info(18, 7, 6)) && Holds(counter, [30, 24, 24, 8, 11, 9, 0, 0, 0, 0, 0, 10, 3, -1, 1, 1, 4, -1, -1])
  {
    hide LeNat, ReadHeader, WrapHeader, Holds;
    WordBytes(src);
    AcceptedOverrun();
  }

  // ----- a header written is a header read -----

  lemma BeginsWith(bytes: seq<Byte>, rest: seq<Byte>, f: Stack)
    requires f.Ok() && |bytes| == (f.len + 7) / 8 && LeNat(bytes) == f.val
    ensures Begins(LeNat(bytes + rest), f)
  {
    hide LeNat, Low, Shl, Shr, Pow2;
    var n := 8 * |bytes|;
    LeNatAppend(bytes, rest);
    LeNatBound(bytes);
    Join(f.val, LeNat(rest), n);
    LowLow(LeNat(bytes + rest), f.len, n - f.len);
    LowSmall(f.val, f.len);
  }

  /** `bytes` are a header, padded to whole bytes. */
  ghost predicate IsHeader(bytes: seq<Byte>, norm: seq<int>, tableLog: nat)
  {
    && ValidNorm(norm, tableLog) && norm[|norm| - 1] != 0 && Header(norm, tableLog).Ok?
    && var f := Header(norm, tableLog).value;
      f.Ok() && |bytes| == (f.len + 7) / 8 && LeNat(bytes) == f.val
  }

  /** Whatever follows a header in its buffer, the reader finds the counts and the
      table log in it, and where it ends. */
  lemma HeaderBack(norm: seq<int>, tableLog: nat, bytes: seq<Byte>, rest: seq<Byte>, cap: nat)
    requires IsHeader(bytes, norm, tableLog) && |norm| <= cap
    ensures var src := Padded(bytes + rest);
      Goal(src, cap) == Ok(Parsed(norm, tableLog, Header(norm, tableLog).value.len))
  {
    hide ReadHeader, WrapHeader, LeNat, Begins, Header, Cum, Pow2;
    var src := Padded(bytes + rest);
    var f := Header(norm, tableLog).value;
    var after := src[|bytes|..];
    assert src[..|bytes + rest|][..|bytes|] == bytes;
    assert src == bytes + after;
    BeginsWith(bytes, after, f);
    RoundTrip(LeNat(src), norm, tableLog, cap, 8 * |src|);
    LeNatBound(src);
    PlainUnlessOverrun(LeNat(src), cap, 8 * |src|);
  }

  /** So reading what was written gives back the counts, the table log, the largest
      symbol and the number of bytes. */
  lemma HeaderRoundTrip(norm: seq<int>, tableLog: nat, bytes: seq<Byte>, w: Result<nat>, rest: seq<Byte>,
                        counter: seq<int>, r: Result<Info>)
    requires ValidNorm(norm, tableLog) && norm[|norm| - 1] != 0 && |norm| <= |counter|
    requires w.Ok? && Wrote(w, Header(norm, tableLog), bytes)
    requires var src := Padded(bytes[..w.value] + rest);
             Reads(r, Goal(src, |counter|), counter, w.value + |rest|)
    ensures r == Ok(Info(|norm| - 1, tableLog, w.value)) && Holds(counter, norm)
  {
    hide WrapHeader, LeNat, Holds, Header, ValidNorm, Room;
    HeaderExists(norm, tableLog);
    HeaderBack(norm, tableLog, bytes[..w.value], rest, |counter|);
  }

  lemma HeaderExists(norm: seq<int>, tableLog: nat)
    requires ValidNorm(norm, tableLog) && norm[|norm| - 1] != 0
    ensures Counts(norm) && Header(norm, tableLog).Ok?
  {
    hide Header;
    var h := Header(norm, tableLog);
    if h.Ok? { LowOwn(h.value); }
    RoundTrip(if h.Ok? then h.value.val else 0, norm, tableLog, |norm|, if h.Ok? then h.value.len else 0);
  }

  lemma LowOwn(s: Stack)
    requires s.Ok()
    ensures Begins(s.val, s)
  {
    LowSmall(s.val, s.len);
  }
}
