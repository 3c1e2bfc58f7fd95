/** The Huffman bit writer `HUF_CStream_t` and the unrolled encoder of
    `HUF_compress1X_usingCTable`. */
module HufStream {
  import opened Bits
  import opened BitStream
  import opened Kraft
  import opened HufCodes

  // ----- what is encoded, and how it is read back -----

  /** Every symbol has a word that fits its length. */
  ghost predicate Codable(src: seq<nat>, nb: seq<nat>, vals: seq<nat>)
  {
    |nb| == |vals| && forall i :: 0 <= i < |src| ==> HasWord(src[i], nb, vals)
  }

  ghost predicate HasWord(s: nat, nb: seq<nat>, vals: seq<nat>)
  {
    s < |nb| && s < |vals| && 0 < nb[s] <= HUF_TABLELOG_MAX && vals[s] < Pow2(nb[s])
  }

  /** The words of `src[lo..hi]`, the last one first, on top of `base`. */
  function EncodeOn(base: Stack, src: seq<nat>, lo: nat, hi: nat, nb: seq<nat>, vals: seq<nat>): (s: Stack)
    requires base.Ok() && lo <= hi <= |src| && Codable(src, nb, vals)
    ensures s.Ok()
    decreases hi - lo
  {
    if lo == hi then base else
      assert HasWord(src[lo], nb, vals);
      EncodeOn(base, src, lo + 1, hi, nb, vals).Push(vals[src[lo]], nb[src[lo]])
  }

  function Encoded(src: seq<nat>, nb: seq<nat>, vals: seq<nat>): (s: Stack)
    requires Codable(src, nb, vals)
    ensures s.Ok()
  {
    EncodeOn(Empty, src, 0, |src|, nb, vals)
  }

  /** The first of the symbols from `k` on whose word is on top. */
  function Match(s: Stack, k: nat, nb: seq<nat>, vals: seq<nat>): (t: nat)
    requires s.Ok() && |nb| == |vals| && k <= |nb|
    ensures k <= t <= |nb| && (t < |nb| ==> 0 < nb[t] <= s.len && s.Top(nb[t]) == vals[t])
    decreases |nb| - k
  {
    if k == |nb| || (0 < nb[k] <= s.len && s.Top(nb[k]) == vals[k]) then k else Match(s, k + 1, nb, vals)
  }

  /** A plain prefix-code reader, until the bits run out or no word matches. */
  function Decoded(s: Stack, nb: seq<nat>, vals: seq<nat>): (src: seq<nat>)
    requires s.Ok() && |nb| == |vals|
    decreases s.len
  {
    var t := Match(s, 0, nb, vals);
    if t == |nb| then [] else [t] + Decoded(s.Pop(nb[t]), nb, vals)
  }

  /** The top of the stack, padded or cut to `unit` bits. */
  lemma TopWindow(s: Stack, unit: nat) returns (w: nat)
    requires s.Ok()
    ensures forall n: nat :: n <= s.len && n <= unit ==> Shr(w, unit - n) == s.Top(n)
  {
    hide Shr, Shl, Pow2;
    w := if s.len >= unit then Shr(s.val, s.len - unit) else Shl(s.val, unit - s.len);
    forall n: nat | n <= s.len && n <= unit ensures Shr(w, unit - n) == s.Top(n) {
      if s.len >= unit {
        ShrShr(s.val, s.len - unit, unit - n);
      } else {
        ShrShl(s.val, unit - s.len);
        ShrShr(w, unit - s.len, s.len - n);
      }
    }
  }

  /** Only one word can be on top. */
  lemma {:induction false} MatchOnly(s: Stack, k: nat, nb: seq<nat>, vals: seq<nat>, unit: nat, t: nat)
    requires s.Ok() && Canonical(nb, unit, vals) && k <= t < |nb|
    requires 0 < nb[t] <= s.len && s.Top(nb[t]) == vals[t]
    ensures Match(s, k, nb, vals) == t
    decreases |nb| - k
  {
    hide Pow2, IsCode;
    if k < t {
      if 0 < nb[k] <= s.len && s.Top(nb[k]) == vals[k] {
        var w := TopWindow(s, unit);
        PrefixFree(nb, unit, vals, k, t, w);
      } else {
        MatchOnly(s, k + 1, nb, vals, unit, t);
      }
    }
  }

  lemma NoMatch(s: Stack, k: nat, nb: seq<nat>, vals: seq<nat>)
    requires s.Ok() && |nb| == |vals| && k <= |nb| && s.len == 0
    ensures Match(s, k, nb, vals) == |nb|
    decreases |nb| - k
  {}

  /** Reading back what was encoded gives the source. */
  lemma {:induction false} RoundTrip(src: seq<nat>, lo: nat, nb: seq<nat>, vals: seq<nat>, unit: nat)
    requires lo <= |src| && Codable(src, nb, vals) && Canonical(nb, unit, vals)
    ensures Decoded(EncodeOn(Empty, src, lo, |src|, nb, vals), nb, vals) == src[lo..]
    decreases |src| - lo
  {
    hide Pow2, Canonical, Match;
    if lo == |src| {
      NoMatch(Empty, 0, nb, vals);
    } else {
      var t := src[lo];
      assert HasWord(t, nb, vals);
      var rest := EncodeOn(Empty, src, lo + 1, |src|, nb, vals);
      PushPop(rest, vals[t], nb[t]);
      MatchOnly(rest.Push(vals[t], nb[t]), 0, nb, vals, unit, t);
      RoundTrip(src, lo + 1, nb, vals, unit);
    }
  }

  // ----- cutting the encoding into groups -----

  lemma {:induction false} EncodeSplit(base: Stack, src: seq<nat>, lo: nat, mid: nat, hi: nat, nb: seq<nat>, vals: seq<nat>)
    requires base.Ok() && lo <= mid <= hi <= |src| && Codable(src, nb, vals)
    ensures EncodeOn(EncodeOn(base, src, mid, hi, nb, vals), src, lo, mid, nb, vals) == EncodeOn(base, src, lo, hi, nb, vals)
    decreases mid - lo
  {
    if lo < mid {
      assert HasWord(src[lo], nb, vals);
      EncodeSplit(base, src, lo + 1, mid, hi, nb, vals);
    }
  }

  /** A group encoded apart can be pushed as one field. */
  lemma {:induction false} EncodeApart(base: Stack, src: seq<nat>, lo: nat, hi: nat, nb: seq<nat>, vals: seq<nat>)
    requires base.Ok() && lo <= hi <= |src| && Codable(src, nb, vals)
    ensures var group := EncodeOn(Empty, src, lo, hi, nb, vals);
            EncodeOn(base, src, lo, hi, nb, vals) == base.Push(group.val, group.len)
    decreases hi - lo
  {
    hide Pow2, Shl;
    if lo == hi {
      ShlZero(base.len);
    } else {
      assert HasWord(src[lo], nb, vals);
      EncodeApart(base, src, lo + 1, hi, nb, vals);
      var group := EncodeOn(Empty, src, lo + 1, hi, nb, vals);
      var v := vals[src[lo]];
      ShlAdd(group.val, Shl(v, group.len), base.len);
      ShlShl(v, group.len, base.len);
    }
  }

  /** No word is longer than `tableLog`. */
  lemma {:induction false} EncodeLength(base: Stack, src: seq<nat>, lo: nat, hi: nat, nb: seq<nat>, vals: seq<nat>, tableLog: nat)
    requires base.Ok() && lo <= hi <= |src| && Codable(src, nb, vals)
    requires forall s :: 0 <= s < |nb| ==> nb[s] <= tableLog
    ensures EncodeOn(base, src, lo, hi, nb, vals).len <= base.len + (hi - lo) * tableLog
    ensures lo < hi ==> EncodeOn(base, src, lo, hi, nb, vals).len > base.len
    decreases hi - lo
  {
    if lo < hi {
      assert HasWord(src[lo], nb, vals);
      EncodeLength(base, src, lo + 1, hi, nb, vals, tableLog);
      assert (hi - lo) * tableLog == (hi - lo - 1) * tableLog + tableLog;
    }
  }

  // ----- registers filled from the top -----

  /** The `len` top bits of a register are `x`; below them anything may be left. */
  predicate TopBits(c: nat, len: nat, x: nat)
  {
    len <= 64 && c < Pow2(64) && Shr(c, 64 - len) == x
  }

  /** Shifting in a field makes room at the top; what the field leaves below itself
      does no harm while it stays below the bits in use. */
  lemma ShiftIn(c: nat, len: nat, x: nat, v: nat, n: nat, noise: nat, d: nat)
    requires TopBits(c, len, x) && x < Pow2(len) && v < Pow2(n) && len + n + d <= 64 && noise < Pow2(d)
    ensures TopBits(BitOr(Shr(c, n), Shl(v, 64 - n) + noise), len + n, x + Shl(v, len))
  {
    hide Shr, Shl, Pow2, BitOr, Low;
    var k := 64 - len - n;
    var o := Shl(v, 64 - n) + noise;
    ShrShr(c, n, k);
    OrShr(Shr(c, n), o, k);
    ShlShl(v, len, k);
    Pow2Mono(d, k);
    Join(noise, Shl(v, len), k);
    OrAbove(x, v, len);
    Pow2Mono(d, 64 - n);
    JoinBound(noise, v, 64 - n, n);
    ShrBound(c, n, 64 - n);
    Pow2Mono(64 - n, 64);
    OrBound(Shr(c, n), o, 64);
  }

  /** A register that started from zero has no more than `d` dirty bits, at the very
      bottom. */
  predicate TopOnly(c: nat, len: nat, x: nat, d: nat)
  {
    TopBits(c, len, x) && len + d <= 64 && Low(c, 64 - len) < Pow2(d)
  }

  lemma {:induction false} OrLow(x: nat, y: nat, n: nat)
    ensures Low(BitOr(x, y), n) == BitOr(Low(x, n), Low(y, n))
    decreases n
  {
    if n > 0 {
      assert BitOr(x, y) / 2 == BitOr(x / 2, y / 2);
      assert BitOr(x, y) % 2 == if x % 2 == 1 || y % 2 == 1 then 1 else 0;
      OrLow(x / 2, y / 2, n - 1);
      var a, b := Low(x, n), Low(y, n);
      assert a / 2 == Low(x / 2, n - 1) && b / 2 == Low(y / 2, n - 1) && a % 2 == x % 2 && b % 2 == y % 2;
    }
  }

  lemma ShiftInOnly(c: nat, len: nat, x: nat, e: nat, v: nat, n: nat, noise: nat, d: nat)
    requires TopOnly(c, len, x, e) && x < Pow2(len) && v < Pow2(n) && len + n + d <= 64 && noise < Pow2(d)
    ensures TopOnly(BitOr(Shr(c, n), Shl(v, 64 - n) + noise), len + n, x + Shl(v, len), Max(d, if e < n then 0 else e - n))
  {
    hide Shr, Shl, Pow2, BitOr, Low;
    ShiftIn(c, len, x, v, n, noise, d);
    var k, left := 64 - len - n, if e < n then 0 else e - n;
    var o := Shl(v, 64 - n) + noise;
    OrLow(Shr(c, n), o, k);
    LowLow(c, n, k);
    Pow2Mono(e, n + left);
    ShrBound(Low(c, n + k), n, left);
    Pow2Mono(d, k);
    ShlShl(v, len, k);
    Join(noise, Shl(v, len), k);
    Pow2Mono(d, Max(d, left));
    Pow2Mono(left, Max(d, left));
    OrBound(Low(Shr(c, n), k), noise, Max(d, left));
  }

  /** Only the low byte of a bit position counts; the rest is whatever the elements
      added to it. */
  lemma AddPositions(a: nat, b: nat)
    requires Low(a, 8) + Low(b, 8) < 256
    ensures Low(Low(a + b, 64), 8) == Low(a, 8) + Low(b, 8)
  {
    hide Low, Shr, Shl, Pow2;
    LowLow(a + b, 8, 56);
    Split(a, 8);
    Split(b, 8);
    ShlAdd(Shr(a, 8), Shr(b, 8), 8);
    Pow2Values();
    Join(Low(a, 8) + Low(b, 8), Shr(a, 8) + Shr(b, 8), 8);
  }

  lemma LowOctet(x: nat)
    ensures Low(Low(x, 3), 8) == Low(Low(x, 8), 3) == Low(x, 8) % 8
  {
    hide Low;
    LowLow(x, 3, 5);
    LowBound(x, 3);
    Pow2Values();
    LowSmall(Low(x, 3), 8);
    LowOf8(Low(x, 8));
  }

  lemma LowOf8(x: nat)
    ensures Low(x, 3) == x % 8
  {
    hide Low;
    LowPair(x, 1);
    LowBit(x / 4);
  }

  lemma LowBit(y: nat)
    ensures Low(y, 1) == y % 2
  {
    ShiftNone(y / 2);
  }

  /** The parts of an element that `HUF_addBits` uses. */
  lemma EltParts(v: nat, nb: nat)
    requires 0 < nb <= HUF_TABLELOG_MAX && v < Pow2(nb)
    ensures NbBits(Elt(v, nb)) == nb && Elt(v, nb) == nb + Shl(v, 64 - nb)
    ensures Elt(v, nb) - NbBits(Elt(v, nb)) == Shl(v, 64 - nb)
    ensures nb < 16
  {
    hide Shl, Low, Shr, Pow2;
    Pow2Values();
    ShlShl(v, 56 - nb, 8);
    Join(nb, Shl(v, 56 - nb), 8);
  }

  /** The first container holds the bits not flushed yet. */
  ghost predicate First(c: nat, pending: nat, stack: Stack, flushed: nat)
  {
    && stack.Ok() && pending < 64 && stack.len == pending + 8 * flushed
    && TopBits(c, pending, Shr(stack.val, 8 * flushed))
  }

  ghost predicate Second(c: nat, side: Stack, dirty: nat)
  {
    side.Ok() && side.len < 64 && TopOnly(c, side.len, side.val, dirty)
  }

  /** The bytes below `ptr`, which stops at `endPtr`, are the bits flushed. */
  ghost predicate Written(bytes: seq<Byte>, ptr: nat, endPtr: nat, stack: Stack, flushed: nat)
  {
    && endPtr <= |bytes| && ptr == (if flushed <= endPtr then flushed else endPtr)
    && (flushed <= endPtr ==> LeNat(bytes[..ptr]) == Low(stack.val, 8 * flushed))
  }

  lemma NothingWritten(bytes: seq<Byte>, endPtr: nat)
    requires endPtr <= |bytes|
    ensures First(0, 0, Empty, 0) && Second(0, Empty, 0) && Written(bytes, 0, endPtr, Empty, 0) && Low(0, 8) == 0
  {
    hide Low, Shr, LeNat, Pow2, TopBits, TopOnly;
    EmptyRegister();
    ShiftNone(0);
    assert bytes[..0] == [];
    NoBytes();
  }

  lemma EmptyRegister()
    ensures TopBits(0, 0, 0) && TopOnly(0, 0, 0, 0) && Low(0, 8) == 0 && Empty.Ok()
  {
    hide Low, Shr, Pow2;
    PowersPositive();
    LowSmall(0, 8);
    LowSmall(0, 64);
  }

  lemma NoBytes()
    ensures LeNat([]) == 0
  {}

  lemma PowersPositive()
    ensures Pow2(0) == 1 && Pow2(8) > 0 && Pow2(64) > 0
  {
    Pow2Values();
    Pow2Wide();
  }

  /** Adding bits changes nothing that was flushed. */
  lemma PushWritten(bytes: seq<Byte>, ptr: nat, endPtr: nat, stack: Stack, flushed: nat, v: nat, n: nat)
    requires Written(bytes, ptr, endPtr, stack, flushed) && stack.Ok() && 8 * flushed <= stack.len && v < Pow2(n)
    ensures Written(bytes, ptr, endPtr, stack.Push(v, n), flushed)
  {
    hide Low, Pow2, Shl;
    CStream.PushAbove(stack, v, n, 8 * flushed);
  }

  lemma PushFirst(c: nat, pending: nat, stack: Stack, flushed: nat, v: nat, n: nat, noise: nat, d: nat)
    requires First(c, pending, stack, flushed) && v < Pow2(n) && noise < Pow2(d)
    requires pending + n < 64 && pending + n + d <= 64
    ensures First(BitOr(Shr(c, n), Shl(v, 64 - n) + noise), pending + n, stack.Push(v, n), flushed)
  {
    hide Low, Shr, Shl, Pow2, BitOr, TopBits;
    ShrBound(stack.val, 8 * flushed, pending);
    ShiftIn(c, pending, Shr(stack.val, 8 * flushed), v, n, noise, d);
    CStream.PushAbove(stack, v, n, 8 * flushed);
  }

  lemma PushSecond(c: nat, side: Stack, dirty: nat, v: nat, n: nat, noise: nat, d: nat)
    requires Second(c, side, dirty) && v < Pow2(n) && noise < Pow2(d) && side.len + n < 64 && side.len + n + d <= 64
    ensures Second(BitOr(Shr(c, n), Shl(v, 64 - n) + noise), side.Push(v, n), Max(d, if dirty < n then 0 else dirty - n))
  {
    hide Low, Shr, Shl, Pow2, BitOr, TopOnly;
    ShiftInOnly(c, side.len, side.val, dirty, v, n, noise, d);
  }

  /** Flushing `pending / 8` bytes: what is left is still at the top, and the byte
      after the last whole one holds it. */
  lemma FlushFirst(c: nat, pending: nat, stack: Stack, flushed: nat)
    requires First(c, pending, stack, flushed) && pending > 0
    ensures First(c, pending % 8, stack, flushed + pending / 8)
    ensures Shr(c, 64 - pending) == Shr(stack.val, 8 * flushed)
  {
    hide Low, Shr, Shl, Pow2;
    var k := pending / 8;
    assert pending == pending % 8 + 8 * k && 8 * (flushed + k) == 8 * flushed + 8 * k;
    ShrShr(stack.val, 8 * flushed, 8 * k);
    ShrShr(c, 64 - pending, 8 * k);
  }

  lemma FlushWritten(bytes: seq<Byte>, after: seq<Byte>, ptr: nat, endPtr: nat, stack: Stack, flushed: nat, pending: nat, next: nat)
    requires Written(bytes, ptr, endPtr, stack, flushed) && |bytes| == endPtr + 8 && stack.Ok()
    requires pending < 64 && stack.len == pending + 8 * flushed
    requires after == bytes[..ptr] + LeBytes(Shr(stack.val, 8 * flushed), 8) + bytes[ptr + 8..]
    requires next == if ptr + pending / 8 > endPtr then endPtr else ptr + pending / 8
    ensures Written(after, next, endPtr, stack, flushed + pending / 8)
    ensures stack.len / 8 == flushed + pending / 8
    ensures stack.len / 8 <= endPtr ==> next < |after| && LeNat(after[..next + 1]) == stack.val
  {
    hide Low, Shr, Shl, Pow2;
    if flushed <= endPtr {
      CStream.FlushBytes(bytes, after, stack, flushed, pending, pending / 8);
    }
  }

  /** `HUF_CStream_t`.  `ptr` and `endPtr` are offsets from `startPtr`. */
  class HufCStream {
    var bitContainer: seq<nat>
    var bitPos: seq<nat>
    const dst: array<Byte>
    var ptr: nat
    const endPtr: nat

    /** Every bit added to the first container so far. */
    ghost var stack: Stack

    /** What the second container holds, and how many of its low bits are dirty. */
    ghost var side: Stack
    ghost var dirty: nat

    /** The number of whole bytes flushed, not clamped to `endPtr`. */
    ghost var flushed: nat

    /** The number of bits that wait in the first container. */
    ghost function Pending(): nat
      requires |bitPos| == 2
      reads this
    {
      Low(bitPos[0], 8)
    }

    ghost predicate Valid()
      reads this, dst
    {
      && |bitContainer| == |bitPos| == 2
      && endPtr > 0 && dst.Length == endPtr + 8
      && First(bitContainer[0], Pending(), stack, flushed)
      && Written(dst[..], ptr, endPtr, stack, flushed)
      && Low(bitPos[1], 8) == side.len && Second(bitContainer[1], side, dirty)
    }

    /** `HUF_initCStream` on a buffer that it accepts. */
    constructor (dst: array<Byte>)
      requires dst.Length > 8
      ensures Valid() && this.dst == dst && stack == Empty && Pending() == 0
    {
      hide First, Second, Written, Low;
      this.dst := dst;
      endPtr := dst.Length - 8;
      bitContainer, bitPos, ptr := [0, 0], [0, 0], 0;
      stack, side, dirty, flushed := Empty, Empty, 0, 0;
      new;
      NothingWritten(dst[..], endPtr);
    }

    /** `HUF_addBits` of the element of word `v` into container `idx`.  The fast form
        also or-s in the length, less than `2^d`, so `d` bits must stay free. */
    method AddBits(elt: nat, idx: nat, kFast: bool, ghost v: nat, ghost nb: nat, ghost d: nat)
      requires Valid() && idx < 2
      requires 0 < nb <= HUF_TABLELOG_MAX && v < Pow2(nb) && elt == Elt(v, nb) && nb < Pow2(d)
      requires var len := if idx == 0 then Pending() else side.len;
               len + nb < 64 && (kFast ==> len + nb + d <= 64)
      modifies this
      ensures Valid() && ptr == old(ptr)
      ensures idx == 0 ==> stack == old(stack).Push(v, nb) && Pending() == old(Pending()) + nb
      ensures idx == 0 ==> side == old(side) && dirty == old(dirty)
      ensures idx == 1 ==> side == old(side).Push(v, nb) && stack == old(stack) && Pending() == old(Pending())
      ensures idx == 1 ==> dirty == Max(if kFast then d else 0, if old(dirty) < nb then 0 else old(dirty) - nb)
    {
      hide Low, Shr, Shl, Pow2, BitOr, Elt, First, Second, Written;
      EltParts(v, nb);
      ghost var noise, e := if kFast then nb else 0, if kFast then d else 0;
      LowPos(elt);
      Lengths(bitContainer[0], Pending(), stack, flushed, bitContainer[1], side, dirty);
      AddPositions(bitPos[idx], elt);
      if idx == 0 {
        PushFirst(bitContainer[0], Pending(), stack, flushed, v, nb, noise, e);
        PushWritten(dst[..], ptr, endPtr, stack, flushed, v, nb);
        stack := stack.Push(v, nb);
      } else {
        PushSecond(bitContainer[1], side, dirty, v, nb, noise, e);
        side := side.Push(v, nb);
        dirty := Max(e, if dirty < nb then 0 else dirty - nb);
      }
      bitContainer := bitContainer[idx := BitOr(Shr(bitContainer[idx], NbBits(elt)), if kFast then elt else elt - NbBits(elt))];
      bitPos := bitPos[idx := Low(bitPos[idx] + elt, 64)];
    }

    /** `HUF_zeroIndex1`. */
    method ZeroIndex1()
      requires Valid()
      modifies this
      ensures Valid() && ptr == old(ptr) && stack == old(stack) && Pending() == old(Pending())
      ensures side == Empty && dirty == 0
    {
      hide Shr, Shl, Pow2;
      bitContainer := bitContainer[1 := 0];
      bitPos := bitPos[1 := 0];
      side, dirty := Empty, 0;
      Pow2Values();
      Pow2Mono(0, 64);
      Pow2Mono(0, 8);
      LowSmall(0, 64);
      LowSmall(0, 8);
    }

    /** `HUF_mergeIndex1`. */
    method MergeIndex1()
      requires Valid() && Pending() + side.len < 64 && Pending() + side.len + dirty <= 64
      modifies this
      ensures Valid() && ptr == old(ptr) && side == old(side) && dirty == old(dirty)
      ensures stack == old(stack).Push(side.val, side.len) && Pending() == old(Pending()) + side.len
    {
      hide Low, Shr, Shl, Pow2, BitOr, First, Written;
      Lengths(bitContainer[0], Pending(), stack, flushed, bitContainer[1], side, dirty);
      AddPositions(bitPos[0], bitPos[1]);
      var q := Low(bitPos[1], 8);
      Split(bitContainer[1], 64 - side.len);
      PushFirst(bitContainer[0], Pending(), stack, flushed, side.val, side.len, Low(bitContainer[1], 64 - side.len), dirty);
      PushWritten(dst[..], ptr, endPtr, stack, flushed, side.val, side.len);
      stack := stack.Push(side.val, side.len);
      bitContainer := bitContainer[0 := BitOr(Shr(bitContainer[0], q), bitContainer[1])];
      bitPos := bitPos[0 := Low(bitPos[0] + bitPos[1], 64)];
    }

    /** `HUF_flushBits`.  The fast form does not look at `endPtr`: the caller knows
        that the bytes fit. */
    method FlushBits(kFast: bool)
      requires Valid() && Pending() > 0
      requires kFast ==> stack.len / 8 <= endPtr
      modifies this, dst
      ensures Valid() && stack == old(stack) && Pending() == old(Pending()) % 8
      ensures side == old(side) && dirty == old(dirty)
      ensures stack.len / 8 <= endPtr ==> LeNat(dst[..ptr + 1]) == stack.val
    {
      hide Low, Shr, Shl, Pow2, First, Second, Written, LeNat, LeBytes;
      ghost var before, at := dst[..], ptr;
      Lengths(bitContainer[0], Pending(), stack, flushed, bitContainer[1], side, dirty);
      var nbBits := Low(bitPos[0], 8);
      var nbBytes := nbBits / 8;
      var container := Shr(bitContainer[0], 64 - nbBits);
      FlushFirst(bitContainer[0], nbBits, stack, flushed);
      LowOctet(bitPos[0]);
      bitPos := bitPos[0 := Low(bitPos[0], 3)];
      assert Pending() == nbBits % 8;
      PtrBound(before, ptr, endPtr, stack, flushed);
      WriteLE64(dst, ptr, container);
      ptr := ptr + nbBytes;
      if !kFast && ptr > endPtr { ptr := endPtr; }
      ghost var after := dst[..];
      FlushWritten(before, after, at, endPtr, stack, flushed, nbBits, ptr);
      assert stack.len / 8 <= endPtr ==> dst[..ptr + 1] == after[..ptr + 1];
      flushed := flushed + nbBytes;
    }

    static lemma PtrBound(bytes: seq<Byte>, ptr: nat, endPtr: nat, stack: Stack, flushed: nat)
      requires Written(bytes, ptr, endPtr, stack, flushed)
      ensures ptr <= endPtr && (flushed <= endPtr ==> ptr == flushed)
    {}

    static lemma Lengths(c: nat, pending: nat, stack: Stack, flushed: nat, c1: nat, side: Stack, dirty: nat)
      requires First(c, pending, stack, flushed) && Second(c1, side, dirty)
      ensures stack.Ok() && pending < 64 && stack.len == pending + 8 * flushed
      ensures side.Ok() && side.len < 64
    {}

    /** `HUF_closeCStream`: the size of the sealed stream, or 0 exactly when its
        whole bytes would reach `endPtr`. */
    method CloseCStream() returns (size: nat)
      requires Valid() && Pending() < 8
      modifies this, dst
      ensures size == if (old(stack).len + 1) / 8 < endPtr then (old(stack).len + 8) / 8 else 0
      ensures size > 0 ==> size <= dst.Length && Sealed(dst[..size], old(stack))
    {
      hide Low, Shr, Shl, Pow2, TopBits, TopOnly;
      ShlOne(stack.len);
      Pow2Values();
      EndMark();
      AddBits(SetValue(1, 1), 0, false, 1, 1, 1);
      FlushBits(false);
      var nbBits := Low(bitPos[0], 8);
      if ptr >= endPtr { return 0; }
      size := ptr + (if nbBits > 0 then 1 else 0);
      if nbBits == 0 {
        LowSmall(stack.val, 8 * ptr);
      }
    }
  }

  /** `HUF_endMark`. */
  lemma EndMark()
    ensures NbBits(1) == 1 && SetValue(1, 1) == Elt(1, 1)
  {
    Pow2Values();
    SetValueGives(1, 1);
  }

  lemma LowPos(elt: nat)
    ensures NbBits(elt) == Low(elt, 8)
  {}
}
