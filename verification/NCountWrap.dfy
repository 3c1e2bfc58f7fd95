/** What `FSE_readNCount` does after the last bit of its buffer: the bit count wraps
    round modulo 32, and the last four bytes are read again. */
module NCountWrap {
  import opened Bits
  import opened Results
  import opened FseSpread
  import opened NCount

  /** Where the reader goes on: a position after the end comes back into the last four
      bytes. */
  function WrapBack(p: nat, limit: nat): (q: nat)
    requires limit >= 32
    ensures q < limit && if p < limit then q == p else limit - 32 <= q && (q - (limit - 32)) % 32 == (p - limit) % 32
  {
    if p < limit then p else limit - 32 + (p - limit) % 32
  }

  /** A buffer of at least four bytes, and a position in it. */
  ghost predicate Within(x: nat, pos: nat, limit: nat) { limit >= 32 && x < Pow2(limit) && pos < limit }

  lemma {:induction false} ThreesSize(x: nat, n: nat)
    requires n <= Threes(x)
    ensures x + 1 >= Pow2(2 * n)
    decreases n
  {
    if n > 0 {
      ThreesSize(x / 4, n - 1);
      assert Pow2(2 * n) == 4 * Pow2(2 * (n - 1));
    }
  }

  lemma {:induction false} ThreesShift(x: nat, n: nat)
    requires n <= Threes(x)
    ensures Threes(Shr(x, 2 * n)) == Threes(x) - n
    decreases n
  {
    hide Shr;
    if n == 0 {
      ShiftNone(x);
    } else {
      ThreesShift(x / 4, n - 1);
      LowTwo(x);
      ShrShr(x, 2, 2 * (n - 1));
    }
  }

  lemma TwelvePairs(y: nat)
    requires Threes(y) >= 12
    ensures Threes(Shr(y, 24)) == Threes(y) - 12
    ensures GetZeros(y).0 == 36 + GetZeros(Shr(y, 24)).0 && GetZeros(y).1 == 24 + GetZeros(Shr(y, 24)).1
  {
    hide Shr, Threes;
    ThreesShift(y, 12);
    var rest := Threes(y) - 12;
    ShrShr(y, 24, 2 * rest);
    assert 24 + 2 * rest == 2 * Threes(y);
  }

  /** Pairs of ones are bits of the buffer. */
  lemma PairsFit(x: nat, pos: nat, limit: nat, n: nat)
    requires Within(x, pos, limit) && n <= Threes(Shr(x, pos))
    ensures pos + 2 * n <= limit
  {
    hide Shr, Pow2, Threes;
    if n > 0 {
      var y := Shr(x, pos);
      ShrBound(x, pos, limit - pos);
      ThreesSize(y, n);
      if 2 * n > limit - pos {
        Pow2Next(2 * n - 1);
        Pow2Mono(1, 2 * n - 1);
        Pow2Values();
        Pow2Mono(limit - pos, 2 * n - 1);
      }
    }
  }

  /** The zeros of a run, twelve pairs at a time, and the position after it. */
  function GetRun(x: nat, pos: nat, limit: nat): (r: (nat, nat))
    requires Within(x, pos, limit)
    decreases if pos + 24 == limit then 33 else limit - pos
  {
    var y := Shr(x, pos);
    if Threes(y) >= 12 then
      PairsFit(x, pos, limit, 12);
      var (z, at) := GetRun(x, WrapBack(pos + 24, limit), limit);
      (36 + z, at)
    else (GetZeros(y).0, pos + GetZeros(y).1)
  }

  /** `ReadFrom` with the wrap. */
  function WrapFrom(x: nat, pos: nat, remaining: nat, previous0: bool, norm: seq<int>, tableLog: nat,
                    cap: nat, limit: nat): Result<Parsed>
    requires Within(x, pos, limit) && remaining > 1 && |norm| < cap
    decreases cap - |norm|
  {
    var (z, at) := if previous0 then GetRun(x, pos, limit) else (0, pos);
    if |norm| + z >= cap then Err(CorruptionDetected)
    else
      var here := WrapBack(at, limit);
      var (count, width) := GetCount(Shr(x, here), remaining);
      var next, left, more := here + width, remaining - Weight(count), norm + Zeros(z) + [count];
      if left == 1 then
        if next > limit then Err(CorruptionDetected) else Ok(Parsed(more, tableLog, next))
      else if |more| >= cap then Err(CorruptionDetected)
      else WrapFrom(x, WrapBack(next, limit), left, count == 0, more, tableLog, cap, limit)
  }

  /** What the code reads, on every buffer. */
  function WrapHeader(x: nat, cap: nat, limit: nat): Result<Parsed>
    requires limit >= 32 && x < Pow2(limit) && cap > 0
  {
    var tableLog := Low(x, 4) + MIN_TABLELOG;
    if tableLog > TABLELOG_ABSOLUTE_MAX then Err(TableLogTooLarge)
    else
      StartRoom(tableLog);
      WrapFrom(x, 4, Pow2(tableLog) + 1, false, [], tableLog, cap, limit)
  }

  lemma StartRoom(tableLog: nat)
    ensures Pow2(tableLog) > 0
  {}

  // ----- it is the plain reader until that overruns -----

  /** The first piece of a run. */
  lemma OnePiece(x: nat, pos: nat, limit: nat)
    requires Within(x, pos, limit) && Threes(Shr(x, pos)) >= 12
    ensures pos + 24 <= limit
    ensures var (z, bits) := GetZeros(Shr(x, pos)); var (z1, bits1) := GetZeros(Shr(x, pos + 24));
            z == 36 + z1 && bits == 24 + bits1
    ensures RunMeetsEnd(x, pos, limit) <==> RunMeetsEnd(x, pos + 24, limit)
    ensures pos + 24 == limit ==> RunMeetsEnd(x, pos, limit) && GetZeros(Shr(x, pos)) == (36, 26)
  {
    hide Shr, Threes, Pow2, GetZeros;
    var y := Shr(x, pos);
    PairsFit(x, pos, limit, Threes(y));
    TwelvePairs(y);
    ShrShr(x, pos, 24);
    if pos + 24 == limit { NothingLeft(x, limit); }
  }

  /** A run in pieces is the run, unless its last piece ends with the buffer. */
  lemma {:induction false} RunInPieces(x: nat, pos: nat, limit: nat)
    requires Within(x, pos, limit)
    ensures var (z, bits) := GetZeros(Shr(x, pos));
      if RunMeetsEnd(x, pos, limit) then
        pos + bits >= limit && GetRun(x, pos, limit) == (z + GetRun(x, limit - 32, limit).0, GetRun(x, limit - 32, limit).1)
      else GetRun(x, pos, limit) == (z, pos + bits)
    decreases if pos + 24 == limit then 33 else limit - pos
  {
    hide Shr, Threes, Pow2, GetZeros, RunMeetsEnd;
    if Threes(Shr(x, pos)) >= 12 {
      OnePiece(x, pos, limit);
      if pos + 24 < limit { RunInPieces(x, pos + 24, limit); }
    } else {
      ShortRun(x, pos, limit);
    }
  }

  lemma ShortRun(x: nat, pos: nat, limit: nat)
    requires pos < limit && Threes(Shr(x, pos)) < 12
    ensures !RunMeetsEnd(x, pos, limit)
  {
    hide Shr, Threes;
  }

  lemma NothingLeft(x: nat, limit: nat)
    requires x < Pow2(limit)
    ensures Shr(x, limit) == 0 && Threes(0) == 0 && GetZeros(0) == (0, 2)
  {
    hide Shr;
    ShrBound(x, limit, 0);
    ShiftNone(0);
  }

  /** One turn of the wrapping reader. */
  lemma WrapStep(x: nat, pos: nat, remaining: nat, previous0: bool, norm: seq<int>, tableLog: nat, cap: nat, limit: nat,
                 z: nat, at: nat, count: int, width: nat)
    requires Within(x, pos, limit) && remaining > 1 && |norm| + z < cap
    requires (z, at) == if previous0 then GetRun(x, pos, limit) else (0, pos)
    requires GetCount(Shr(x, WrapBack(at, limit)), remaining) == (count, width)
    ensures var next, left, more := WrapBack(at, limit) + width, remaining - Weight(count), norm + Zeros(z) + [count];
      WrapFrom(x, pos, remaining, previous0, norm, tableLog, cap, limit) ==
      if left == 1 then
        if next > limit then Err(CorruptionDetected) else Ok(Parsed(more, tableLog, next))
      else if |more| >= cap then Err(CorruptionDetected)
      else WrapFrom(x, WrapBack(next, limit), left, count == 0, more, tableLog, cap, limit)
  {
    hide GetRun, GetCount, Shr, Zeros, WrapBack, Pow2;
  }

  /** `o` has led to `r`: it is the answer, or reading on from where it overran gives it. */
  ghost predicate LeadsTo(o: Outcome, r: Result<Parsed>, x: nat, tableLog: nat, cap: nat, limit: nat)
    requires limit >= 32 && x < Pow2(limit)
  {
    match o
    case Done(parsed) => r == parsed
    case Overrun(at, remaining, inRun, norm) =>
      && at >= limit && remaining > 1 && |norm| < cap
      && r == WrapFrom(x, WrapBack(at, limit), remaining, inRun, norm, tableLog, cap, limit)
  }

  /** Zeros may be noted down before the reader goes on: at the count after them, or in
      the middle of their run. */
  lemma RunSplit(x: nat, pos: nat, remaining: nat, norm: seq<int>, tableLog: nat, cap: nat, limit: nat, z: nat, at: nat, inRun: bool)
    requires Within(x, pos, limit) && remaining > 1 && |norm| + z < cap
    requires var (more, end) := if inRun then GetRun(x, WrapBack(at, limit), limit) else (0, at);
             GetRun(x, pos, limit) == (z + more, end)
    ensures WrapFrom(x, pos, remaining, true, norm, tableLog, cap, limit)
         == WrapFrom(x, WrapBack(at, limit), remaining, inRun, norm + Zeros(z), tableLog, cap, limit)
  {
    hide GetRun, GetCount, Shr, Pow2;
    var (more, end) := if inRun then GetRun(x, WrapBack(at, limit), limit) else (0, at);
    if |norm| + z + more < cap {
      var here := WrapBack(end, limit);
      var (count, width) := GetCount(Shr(x, here), remaining);
      assert norm + Zeros(z) + Zeros(more) + [count] == norm + Zeros(z + more) + [count];
      WrapStep(x, pos, remaining, true, norm, tableLog, cap, limit, z + more, end, count, width);
      WrapStep(x, WrapBack(at, limit), remaining, inRun, norm + Zeros(z), tableLog, cap, limit,
               more, if inRun then end else WrapBack(at, limit), count, width);
    }
  }

  lemma {:induction false} Agree(x: nat, pos: nat, remaining: nat, previous0: bool, norm: seq<int>, tableLog: nat, cap: nat, limit: nat)
    requires Within(x, pos, limit) && remaining > 1 && |norm| < cap
    ensures LeadsTo(ReadFrom(x, pos, remaining, previous0, norm, tableLog, cap, limit),
                    WrapFrom(x, pos, remaining, previous0, norm, tableLog, cap, limit), x, tableLog, cap, limit)
    decreases cap - |norm|
  {
    hide GetRun, GetCount, GetZeros, Shr, Zeros, Pow2, RunMeetsEnd, WrapFrom, WrapBack;
    var (z, bits) := if previous0 then GetZeros(Shr(x, pos)) else (0, 0);
    if previous0 { RunInPieces(x, pos, limit); }
    if |norm| + z >= cap {
      RunTooLong(x, pos, remaining, previous0, norm, tableLog, cap, limit);
    } else if previous0 && pos + bits >= limit {
      var inRun := RunMeetsEnd(x, pos, limit);
      RunSplit(x, pos, remaining, norm, tableLog, cap, limit, z, if inRun then limit else pos + bits, inRun);
    } else {
      var (count, width) := GetCount(Shr(x, pos + bits), remaining);
      var next, left, more := pos + bits + width, remaining - Weight(count), norm + Zeros(z) + [count];
      WrapStep(x, pos, remaining, previous0, norm, tableLog, cap, limit, z, pos + bits, count, width);
      if left != 1 && |more| < cap && next < limit {
        Agree(x, next, left, count == 0, more, tableLog, cap, limit);
      }
    }
  }

  lemma RunTooLong(x: nat, pos: nat, remaining: nat, previous0: bool, norm: seq<int>, tableLog: nat, cap: nat, limit: nat)
    requires Within(x, pos, limit) && remaining > 1 && |norm| < cap
    requires previous0 && |norm| + GetRun(x, pos, limit).0 >= cap
    ensures WrapFrom(x, pos, remaining, previous0, norm, tableLog, cap, limit) == Err(CorruptionDetected)
  {
    hide GetRun, GetCount, Shr, Pow2;
  }

  // ----- after that it reads the last four bytes round and round -----

  lemma LastWord(x: nat, limit: nat)
    requires limit >= 32 && x < Pow2(limit)
    ensures Shr(x, limit - 32) < Pow2(32)
  {
    ShrBound(x, limit - 32, 32);
  }

  lemma {:induction false} RunOfLast(x: nat, pos: nat, limit: nat)
    requires Within(x, pos, limit) && limit - 32 <= pos
    ensures Within(Shr(x, limit - 32), pos - (limit - 32), 32)
    ensures var (z, at) := GetRun(Shr(x, limit - 32), pos - (limit - 32), 32);
            GetRun(x, pos, limit) == (z, limit - 32 + at)
    decreases if pos + 24 == limit then 33 else limit - pos
  {
    hide Shr, Threes, Pow2, GetZeros;
    LastWord(x, limit);
    ShrShr(x, limit - 32, pos - (limit - 32));
    if Threes(Shr(x, pos)) >= 12 {
      PairsFit(x, pos, limit, 12);
      RunOfLast(x, WrapBack(pos + 24, limit), limit);
    }
  }

  lemma WrapShift(p: nat, limit: nat)
    requires limit >= 32
    ensures WrapBack(limit - 32 + p, limit) == limit - 32 + WrapBack(p, 32)
  {}

  /** What comes before the last four bytes plays no part any more. */
  lemma {:induction false} LastFour(x: nat, pos: nat, remaining: nat, previous0: bool, before: seq<int>, norm: seq<int>,
                                    tableLog: nat, cap: nat, limit: nat)
    requires Within(x, pos, limit) && limit - 32 <= pos && remaining > 1 && |before| + |norm| < cap
    ensures Within(Shr(x, limit - 32), pos - (limit - 32), 32)
    ensures WrapFrom(x, pos, remaining, previous0, before + norm, tableLog, cap, limit)
         == Behind(before, limit, WrapFrom(Shr(x, limit - 32), pos - (limit - 32), remaining, previous0, norm, tableLog, cap - |before|, 32))
    decreases cap - |norm|
  {
    hide GetRun, GetCount, Shr, Zeros, Pow2, WrapFrom, WrapBack;
    var last, from := Shr(x, limit - 32), limit - 32;
    LastWord(x, limit);
    RunOfLast(x, pos, limit);
    var (z, at) := if previous0 then GetRun(last, pos - from, 32) else (0, pos - from);
    if |before| + |norm| + z >= cap {
      RunTooLong(x, pos, remaining, previous0, before + norm, tableLog, cap, limit);
      RunTooLong(last, pos - from, remaining, previous0, norm, tableLog, cap - |before|, 32);
    } else {
      var here := WrapBack(at, 32);
      WrapShift(at, limit);
      ShrShr(x, from, here);
      var (count, width) := GetCount(Shr(last, here), remaining);
      var next, left, more := here + width, remaining - Weight(count), norm + Zeros(z) + [count];
      WrapStep(x, pos, remaining, previous0, before + norm, tableLog, cap, limit, z, from + at, count, width);
      WrapStep(last, pos - from, remaining, previous0, norm, tableLog, cap - |before|, 32, z, at, count, width);
      assert before + norm + Zeros(z) + [count] == before + more;
      if left != 1 && |before| + |more| < cap {
        WrapShift(next, limit);
        LastFour(x, from + WrapBack(next, 32), left, count == 0, before, more, tableLog, cap, limit);
      }
    }
  }

  /** What was read of the last four bytes, behind the counts before. */
  function Behind(before: seq<int>, limit: nat, r: Result<Parsed>): Result<Parsed>
    requires limit >= 32
  {
    match r
    case Err(e) => Err(e)
    case Ok(p) => Ok(Parsed(before + p.norm, p.tableLog, limit - 32 + p.bits))
  }

  /** The code is the plain reader on every buffer in which no count, and no piece of a
      run, starts after the last bit. */
  lemma PlainUnlessOverrun(x: nat, cap: nat, limit: nat)
    requires limit >= 32 && x < Pow2(limit) && cap > 0 && ReadHeader(x, cap, limit).Done?
    ensures WrapHeader(x, cap, limit) == ReadHeader(x, cap, limit).parsed
  {
    hide ReadFrom, WrapFrom, Low, Pow2;
    var tableLog := Low(x, 4) + MIN_TABLELOG;
    if tableLog <= TABLELOG_ABSOLUTE_MAX {
      StartRoom(tableLog);
      Agree(x, 4, Pow2(tableLog) + 1, false, [], tableLog, cap, limit);
    }
  }

  /** Otherwise it goes on in the last four bytes alone, at the bit where it overran
      modulo 32, and accepts exactly when these hand out the cells still owed, to no more
      symbols than are left, with a last count that ends inside. */
  lemma OverrunAccepted(x: nat, cap: nat, limit: nat)
    requires limit >= 32 && x < Pow2(limit) && cap > 0 && ReadHeader(x, cap, limit).Overrun?
    ensures var Overrun(at, remaining, inRun, norm) := ReadHeader(x, cap, limit);
      && at >= limit && remaining > 1 && |norm| < cap && Within(Shr(x, limit - 32), (at - limit) % 32, 32)
      && WrapHeader(x, cap, limit) == Behind(norm, limit,
           WrapFrom(Shr(x, limit - 32), (at - limit) % 32, remaining, inRun, [], Low(x, 4) + MIN_TABLELOG, cap - |norm|, 32))
  {
    hide ReadFrom, WrapFrom, Low, Pow2, Shr;
    var tableLog := Low(x, 4) + MIN_TABLELOG;
    StartRoom(tableLog);
    Agree(x, 4, Pow2(tableLog) + 1, false, [], tableLog, cap, limit);
    var Overrun(at, remaining, inRun, norm) := ReadHeader(x, cap, limit);
    LastFour(x, WrapBack(at, limit), remaining, inRun, norm, [], tableLog, cap, limit);
    assert norm + [] == norm;
  }

  // ----- eight bytes that are accepted though the plain reader overruns -----

  /** A reader between two counts, with the bits it has not read. */
  datatype Spot = Spot(pos: nat, rest: nat, remaining: nat, previous0: bool, norm: seq<int>)

  ghost predicate Stands(x: nat, s: Spot, cap: nat, limit: nat, goal: Outcome)
  {
    && s.remaining > 1 && |s.norm| < cap && Shr(x, s.pos) == s.rest
    && goal == ReadFrom(x, s.pos, s.remaining, s.previous0, s.norm, 7, cap, limit)
  }

  /** One turn on concrete bits: `h` is the highest bit of what remains, `y` what
      follows a run, and `rest` what follows the count. */
  lemma Turn(x: nat, s: Spot, cap: nat, limit: nat, goal: Outcome, h: nat, count: int, y: nat, rest: nat) returns (r: Spot)
    requires Stands(x, s, cap, limit, goal)
    requires Pow2(h) <= s.remaining < 2 * Pow2(h) && -1 <= count < s.remaining
    requires if s.previous0 then s.rest == 4 * y + s.rest % 4 && s.rest % 4 < 3 && s.pos + 2 < limit else y == s.rest
    requires |s.norm| + 4 < cap
    requires var t, max := Pow2(h), 2 * Pow2(h) - 1 - s.remaining;
      y == (if count + 1 >= t then count + 1 + max else count + 1) + Shl(rest, if count + 1 < max then h else h + 1)
    ensures var z, long := if s.previous0 then s.rest % 4 else 0, count + 1 >= 2 * Pow2(h) - 1 - s.remaining;
      r == Spot(s.pos + (if s.previous0 then 2 else 0) + (if long then h + 1 else h), rest, s.remaining - Weight(count),
                count == 0, s.norm + Zeros(z) + [count])
    ensures if r.remaining == 1 then goal == Done(if r.pos > limit then Err(CorruptionDetected) else Ok(Parsed(r.norm, 7, r.pos)))
            else if r.pos >= limit then goal == Overrun(r.pos, r.remaining, r.previous0, r.norm)
            else Stands(x, r, cap, limit, goal)
  {
    hide Pow2, Low, Shr, Shl, Highbit, Zeros, GetCount, CountField, ReadFrom;
    var z, bits := if s.previous0 then s.rest % 4 else 0, if s.previous0 then 2 else 0;
    RunOrNone(x, s.pos, s.rest, y, s.previous0);
    var width := FieldAt(y, rest, s.remaining, h, count);
    ShrShr(x, s.pos + bits, width);
    ReadStep(x, s.pos, s.remaining, s.previous0, s.norm, 7, cap, limit, z, bits, count, width);
    r := Spot(s.pos + bits + width, rest, s.remaining - Weight(count), count == 0, s.norm + Zeros(z) + [count]);
  }

  lemma FieldAt(y: nat, rest: nat, remaining: nat, h: nat, count: int) returns (width: nat)
    requires 1 < remaining && Pow2(h) <= remaining < 2 * Pow2(h) && -1 <= count < remaining
    requires var t, max := Pow2(h), 2 * Pow2(h) - 1 - remaining;
      y == (if count + 1 >= t then count + 1 + max else count + 1) + Shl(rest, if count + 1 < max then h else h + 1)
    ensures width == if count + 1 < 2 * Pow2(h) - 1 - remaining then h else h + 1
    ensures GetCount(y, remaining) == (count, width) && Shr(y, width) == rest
  {
    hide Pow2, Low, Shr, Shl, Highbit, GetCount;
    Pow2Next(h);
    HighbitUnique(remaining, h);
    var f := CountField(count, remaining);
    width := f.width;
    assert y == f.value + Shl(rest, width);
    Join(f.value, rest, width);
    CountBack(y, count, remaining);
  }

  lemma RunOrNone(x: nat, pos: nat, rest: nat, y: nat, previous0: bool)
    requires Shr(x, pos) == rest
    requires if previous0 then rest == 4 * y + rest % 4 && rest % 4 < 3 else y == rest
    ensures Shr(x, pos + if previous0 then 2 else 0) == y
    ensures previous0 ==> GetZeros(rest) == (rest % 4, 2)
  {
    hide Shr;
    if previous0 {
      LowTwo(rest);
      ShiftNone(rest);
      ShrShr(x, pos, 2);
    }
  }

  /** The bytes f2 c9 b2 c4 54 14 2e 82. */
  const WORD: nat := 0x822e_1454_c4b2_c9f2

  lemma First() returns (goal: Outcome, s: Spot)
    ensures goal == ReadHeader(WORD, 256, 64) && Stands(WORD, s, 256, 64, goal)
    ensures s == Spot(4, 0x822_e145_4c4b_2c9f, 129, false, [])
  {
    hide ReadFrom;
    Pow2Values();
    LowTwo(WORD);
    goal := ReadHeader(WORD, 256, 64);
    s := Spot(4, 0x822_e145_4c4b_2c9f, 129, false, []);
  }

  lemma FirstWord() returns (goal: Outcome, s: Spot)
    ensures goal == ReadHeader(WORD, 256, 64) && Stands(WORD, s, 256, 64, goal)
    ensures s == Spot(33, 0x4117_0a2a, 32, false, [30, 24, 24, 8, 11])
  {
    hide ReadHeader, Stands, Pow2;
    Pow2Values();
    goal, s := First();
    s := Turn(WORD, s, 256, 64, goal, 7, 30, s.rest, 0x10_45c2_8a98_9659);
    s := Turn(WORD, s, 256, 64, goal, 6, 24, s.rest, 0x4117_0a2a_6259);
    s := Turn(WORD, s, 256, 64, goal, 6, 24, s.rest, 0x1045_c28a_989);
    s := Turn(WORD, s, 256, 64, goal, 5, 8, s.rest, 0x8_22e1_454c);
    s := Turn(WORD, s, 256, 64, goal, 5, 11, s.rest, 0x4117_0a2a);
  }

  lemma SecondWord() returns (goal: Outcome, s: Spot)
    ensures goal == ReadHeader(WORD, 256, 64) && Stands(WORD, s, 256, 64, goal)
    ensures s == Spot(55, 0x104, 13, false, [30, 24, 24, 8, 11, 9, 0, 0, 0, 0, 0, 10])
  {
    hide ReadHeader, Stands, Pow2;
    Pow2Values();
    goal, s := FirstWord();
    s := Turn(WORD, s, 256, 64, goal, 5, 9, s.rest, 0x208_b851);
    s := Turn(WORD, s, 256, 64, goal, 4, 0, s.rest, 0x20_8b85);
    s := Turn(WORD, s, 256, 64, goal, 4, 0, 0x8_22e1, 0x822e);
    s := Turn(WORD, s, 256, 64, goal, 4, 10, 0x208b, 0x104);
    assert s.norm == [30, 24, 24, 8, 11, 9, 0, 0, 0, 0, 0, 10];
  }

  /** The plain reader ends one bit after the buffer, with seven cells still owed. */
  lemma Overruns()
    ensures ReadHeader(WORD, 256, 64) == Overrun(65, 8, false, [30, 24, 24, 8, 11, 9, 0, 0, 0, 0, 0, 10, 3, -1, 1])
  {
    hide ReadHeader, Stands, Pow2;
    Pow2Values();
    var goal, s := SecondWord();
    s := Turn(WORD, s, 256, 64, goal, 3, 3, s.rest, 0x10);
    s := Turn(WORD, s, 256, 64, goal, 3, -1, s.rest, 2);
    s := Turn(WORD, s, 256, 64, goal, 3, 1, s.rest, 0);
    assert s.norm == [30, 24, 24, 8, 11, 9, 0, 0, 0, 0, 0, 10, 3, -1, 1];
  }

  /** The last four bytes, from bit 1. */
  lemma Rewound()
    ensures ReadFrom(0x822e_1454, 1, 8, false, [], 7, 241, 32) == Done(Ok(Parsed([1, 4, -1, -1], 7, 10)))
  {
    hide ReadFrom, Pow2;
    Pow2Values();
    var x, goal := 0x822e_1454, ReadFrom(0x822e_1454, 1, 8, false, [], 7, 241, 32);
    var s := Spot(1, 0x4117_0a2a, 8, false, []);
    s := Turn(x, s, 241, 32, goal, 3, 1, s.rest, 0x822_e145);
    s := Turn(x, s, 241, 32, goal, 2, 4, s.rest, 0x104_5c28);
    s := Turn(x, s, 241, 32, goal, 1, -1, s.rest, 0x41_170a);
    s := Turn(x, s, 241, 32, goal, 1, -1, s.rest, 0x20_8b85);
    assert s.norm == [1, 4, -1, -1];
  }

  lemma LastBytes()
    ensures WORD < Pow2(64) && Shr(WORD, 32) == 0x822e_1454 && Low(WORD, 4) == 2
    ensures 0x822e_1454 < Pow2(32)
  {
    hide Shl, Shr, Pow2;
    Pow2Wide();
    LowTwo(WORD / 4);
    LowPair(WORD, 2);
    ShlIsMul(0x822e_1454, 32);
    Join(0xc4b2_c9f2, 0x822e_1454, 32);
    JoinBound(0xc4b2_c9f2, 0x822e_1454, 32, 32);
  }

  /** The code accepts: it reads on at bit 33, and finds 19 counts that end in bit 42. */
  lemma AcceptedOverrun()
    ensures WORD < Pow2(64) && ReadHeader(WORD, 256, 64).Overrun?
    ensures WrapHeader(WORD, 256, 64)
         == Ok(Parsed([30, 24, 24, 8, 11, 9, 0, 0, 0, 0, 0, 10, 3, -1, 1, 1, 4, -1, -1], 7, 42))
  {
    hide ReadHeader, WrapHeader, ReadFrom, WrapFrom, Low, Shr, Pow2;
    LastBytes();
    Overruns();
    OverrunAccepted(WORD, 256, 64);
    Rewound();
    Agree(0x822e_1454, 1, 8, false, [], 7, 241, 32);
    var norm := [30, 24, 24, 8, 11, 9, 0, 0, 0, 0, 0, 10, 3, -1, 1];
    assert norm + [1, 4, -1, -1] == [30, 24, 24, 8, 11, 9, 0, 0, 0, 0, 0, 10, 3, -1, 1, 1, 4, -1, -1];
  }

  lemma WordBytes(src: seq<Byte>)
    requires src == [0xf2, 0xc9, 0xb2, 0xc4] + [0x54, 0x14, 0x2e, 0x82]
    ensures LeNat(src) == WORD
  {
    hide LeNat, Shl, Pow2;
    Pow2Wide();
    LeNatAppend([0xf2, 0xc9, 0xb2, 0xc4], [0x54, 0x14, 0x2e, 0x82]);
    FourBytes(0xf2, 0xc9, 0xb2, 0xc4);
    FourBytes(0x54, 0x14, 0x2e, 0x82);
    ShlIsMul(0x822e_1454, 32);
  }
}
