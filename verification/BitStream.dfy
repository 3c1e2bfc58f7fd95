/** The two-ended bit stream of libzstd/common/bitstream.h.

    A stream is written forwards and read backwards, so what it holds is a stack
    of bits.  `Stack` is that abstract value; `CStream` and `DStream` are the
    register-and-buffer implementations, each tied to a `Stack` by its contracts. */
module BitStream {
  import opened Bits
  import opened Results

  /** `len` bits, the least significant one pushed first. */
  datatype Stack = Stack(val: nat, len: nat) {
    predicate Ok() { val < Pow2(len) }

    /** Adds the `n`-bit value `v`. */
    function Push(v: nat, n: nat): (s: Stack)
      requires Ok() && v < Pow2(n)
      ensures s.Ok() && s.len == len + n
    {
      JoinBound(val, v, len, n);
      Stack(val + Shl(v, len), len + n)
    }

    /** Adds the low `n` bits of `v`. */
    function PushLow(v: nat, n: nat): (s: Stack)
      requires Ok()
      ensures s.Ok() && s.len == len + n
    {
      LowBound(v, n);
      Push(Low(v, n), n)
    }

    /** The `n` bits added last. */
    function Top(n: nat): (v: nat)
      requires Ok() && n <= len
      ensures v < Pow2(n)
    {
      ShrBound(val, len - n, n);
      Shr(val, len - n)
    }

    function Pop(n: nat): (s: Stack)
      requires n <= len
      ensures s.Ok() && s.len == len - n
    {
      LowBound(val, len - n);
      Stack(Low(val, len - n), len - n)
    }
  }

  const Empty := Stack(0, 0)

  /** What was pushed last is what is read first. */
  lemma PushPop(s: Stack, v: nat, n: nat)
    requires s.Ok() && v < Pow2(n)
    ensures s.Push(v, n).Top(n) == v
    ensures s.Push(v, n).Pop(n) == s
  {
    hide Low, Shr, Shl, Pow2;
    var t := s.Push(v, n);
    assert t.len - n == s.len && t.val == s.val + Shl(v, s.len);
    Join(s.val, v, s.len);
  }

  datatype Field = Field(value: nat, width: nat)

  ghost predicate Clean(fs: seq<Field>) { forall i :: 0 <= i < |fs| ==> fs[i].value < Pow2(fs[i].width) }

  function PushAll(s: Stack, fs: seq<Field>): (r: Stack)
    requires s.Ok() && Clean(fs)
    ensures r.Ok()
    decreases |fs|
  {
    if fs == [] then s else
      var k := |fs| - 1;
      PushAll(s, fs[..k]).Push(fs[k].value, fs[k].width)
  }

  /** Reads fields of the given widths, first width first. */
  function ReadAll(s: Stack, widths: seq<nat>): (r: (seq<nat>, Stack))
    requires s.Ok()
    ensures r.1.Ok()
    decreases |widths|
  {
    if widths == [] || s.len < widths[0] then ([], s) else
      var (vs, rest) := ReadAll(s.Pop(widths[0]), widths[1..]);
      ([s.Top(widths[0])] + vs, rest)
  }

  function ReverseWidths(fs: seq<Field>): (r: seq<nat>)
    ensures |r| == |fs|
  {
    if fs == [] then [] else [fs[|fs| - 1].width] + ReverseWidths(fs[..|fs| - 1])
  }

  function ReverseValues(fs: seq<Field>): (r: seq<nat>)
    ensures |r| == |fs|
  {
    if fs == [] then [] else [fs[|fs| - 1].value] + ReverseValues(fs[..|fs| - 1])
  }

  lemma ReadStep(s: Stack, widths: seq<nat>)
    requires s.Ok() && |widths| > 0 && widths[0] <= s.len
    ensures ReadAll(s, widths).0 == [s.Top(widths[0])] + ReadAll(s.Pop(widths[0]), widths[1..]).0
    ensures ReadAll(s, widths).1 == ReadAll(s.Pop(widths[0]), widths[1..]).1
  {}

  /** Any list of fields comes back whole, in reverse order, and nothing is left over. */
  lemma {:induction false} LastInFirstOut(s: Stack, fs: seq<Field>)
    requires s.Ok() && Clean(fs)
    ensures ReadAll(PushAll(s, fs), ReverseWidths(fs)) == (ReverseValues(fs), s)
    decreases |fs|
  {
    if fs != [] {
      var k := |fs| - 1;
      var below, widths := PushAll(s, fs[..k]), ReverseWidths(fs);
      assert widths[1..] == ReverseWidths(fs[..k]);
      PushPop(below, fs[k].value, fs[k].width);
      LastInFirstOut(s, fs[..k]);
      ReadStep(below.Push(fs[k].value, fs[k].width), widths);
    }
  }

  // ----- the sealed stream: the bits plus an end mark, in whole bytes -----

  /** `bytes` holds exactly the bits of `s`, then a 1 bit, then padding zeros. */
  ghost predicate Sealed(bytes: seq<Byte>, s: Stack)
  {
    && s.Ok()
    && |bytes| == (s.len + 8) / 8
    && LeNat(bytes) == s.val + Pow2(s.len)
  }

  lemma SealedLast(bytes: seq<Byte>, s: Stack)
    requires Sealed(bytes, s)
    ensures |bytes| > 0 && bytes[|bytes| - 1] > 0
    ensures s.len == 8 * (|bytes| - 1) + Highbit(bytes[|bytes| - 1])
  {
    var k := |bytes| - 1;
    if bytes[k] == 0 {
      LastByte(bytes);
      ShlZero(8 * k);
      LeNatBound(bytes[..k]);
      Pow2Mono(8 * k, s.len);
    }
    TopBit(bytes);
    HighbitUnique(LeNat(bytes), s.len);
  }

  lemma LastByte(bytes: seq<Byte>)
    requires |bytes| > 0
    ensures LeNat(bytes) == LeNat(bytes[..|bytes| - 1]) + Shl(bytes[|bytes| - 1], 8 * (|bytes| - 1))
  {
    var k := |bytes| - 1;
    assert bytes == bytes[..k] + bytes[k..];
    LeNatAppend(bytes[..k], bytes[k..]);
    assert bytes[k..] == [bytes[k]];
    assert LeNat([bytes[k]]) == bytes[k];
  }

  lemma TopBit(bytes: seq<Byte>)
    requires |bytes| > 0 && bytes[|bytes| - 1] > 0
    ensures LeNat(bytes) > 0
    ensures Highbit(LeNat(bytes)) == 8 * (|bytes| - 1) + Highbit(bytes[|bytes| - 1])
  {
    hide Low, Shr, Shl, Pow2;
    var k := |bytes| - 1;
    var b := bytes[k];
    var h := Highbit(b);
    HighbitBounds(b);
    LastByte(bytes);
    LeNatBound(bytes[..k]);
    JoinBound(LeNat(bytes[..k]), b, 8 * k, h + 1);
    ShlMono(Pow2(h), b, 8 * k);
    ShlOne(h);
    ShlShl(1, h, 8 * k);
    ShlOne(8 * k + h);
    HighbitUnique(LeNat(bytes), 8 * k + h);
  }

  // ----- writer -----

  /** `MEM_writeLE64`. */
  method WriteLE64(a: array<Byte>, at: nat, x: nat)
    requires at + 8 <= a.Length
    modifies a
    ensures a[..] == old(a[..at]) + LeBytes(x, 8) + old(a[at + 8..])
  {
    var bytes := LeBytes(x, 8);
    forall i | 0 <= i < 8 {
      a[at + i] := bytes[i];
    }
  }

  /** `BIT_CStream_t`.  `ptr` and `endPtr` are offsets from `startPtr`. */
  class CStream {
    var bitContainer: nat
    var bitPos: nat
    const dst: array<Byte>
    var ptr: nat
    const endPtr: nat

    /** Every bit added so far, whether or not it still fits `dst`. */
    ghost var stack: Stack

    /** The number of whole bytes flushed, not clamped to `endPtr`. */
    ghost function Flushed(): int
      reads this
    {
      (stack.len - bitPos) / 8
    }

    ghost predicate Valid()
      reads this, dst
    {
      && endPtr > 0 && dst.Length == endPtr + 8
      && stack.Ok()
      && bitPos < 64 && bitPos <= stack.len
      && stack.len == bitPos + 8 * Flushed()
      && ptr == (if Flushed() <= endPtr then Flushed() else endPtr)
      && bitContainer == Shr(stack.val, 8 * Flushed())
      && (Flushed() <= endPtr ==> LeNat(dst[..ptr]) == Low(stack.val, 8 * Flushed()))
    }

    /** `BIT_initCStream` on a buffer that it accepts. */
    constructor (dst: array<Byte>)
      requires dst.Length > 8
      ensures Valid() && this.dst == dst && stack == Empty && bitPos == 0
    {
      this.dst := dst;
      endPtr := dst.Length - 8;
      bitContainer, bitPos, ptr := 0, 0, 0;
      stack := Empty;
    }

    lemma ContainerBound()
      requires Valid()
      ensures bitContainer < Pow2(bitPos)
    {
      ShrBound(stack.val, stack.len - bitPos, bitPos);
    }

    /** `BIT_addBits`: the low `nbBits` bits of `value` go on the stack. */
    method AddBits(value: nat, nbBits: nat)
      requires Valid()
      requires nbBits < 32 && nbBits + bitPos < 64
      modifies this
      ensures Valid()
      ensures bitPos == old(bitPos) + nbBits
      ensures stack == old(stack).PushLow(value, nbBits)
    {
      AndMask(value, nbBits);
      LowBound(value, nbBits);
      AddBitsFast(BitAnd(value, Pow2(nbBits) - 1), nbBits);
    }

    /** `BIT_addBitsFast`, for a value with no bit above `nbBits`. */
    method AddBitsFast(value: nat, nbBits: nat)
      requires Valid()
      requires value < Pow2(nbBits) && nbBits + bitPos < 64
      modifies this
      ensures Valid()
      ensures bitPos == old(bitPos) + nbBits
      ensures stack == old(stack).Push(value, nbBits)
    {
      hide Low, Shr, Shl, Pow2;
      ContainerBound();
      ghost var t := Flushed();
      ShiftFits(value, nbBits, bitPos);
      OrAbove(bitContainer, value, bitPos);
      PushAbove(stack, value, nbBits, 8 * t);
      bitContainer := BitOr(bitContainer, Low(Shl(value, bitPos), 64));
      bitPos := bitPos + nbBits;
      stack := stack.Push(value, nbBits);
    }

    static lemma ShiftFits(value: nat, nbBits: nat, pos: nat)
      requires value < Pow2(nbBits) && nbBits + pos < 64
      ensures Low(Shl(value, pos), 64) == Shl(value, pos)
    {
      hide Low, Shr, Shl, Pow2;
      JoinBound(0, value, pos, nbBits);
      Pow2Mono(nbBits + pos, 64);
      LowSmall(Shl(value, pos), 64);
    }

    /** Pushing changes only what lies above the first `k` bits. */
    static lemma PushAbove(s: Stack, v: nat, n: nat, k: nat)
      requires s.Ok() && v < Pow2(n) && k <= s.len
      ensures Shr(s.Push(v, n).val, k) == Shr(s.val, k) + Shl(v, s.len - k)
      ensures Low(s.Push(v, n).val, k) == Low(s.val, k)
    {
      hide Low, Shr, Shl, Pow2;
      var hi, lo := Shr(s.val, k), Low(s.val, k);
      Split(s.val, k);
      LowBound(s.val, k);
      ShlShl(v, s.len - k, k);
      ShlAdd(hi, Shl(v, s.len - k), k);
      Join(lo, hi + Shl(v, s.len - k), k);
    }

    /** `BIT_flushBitsFast`: the caller knows that the bytes fit. */
    method FlushBitsFast()
      requires Valid()
      requires stack.len / 8 <= endPtr
      modifies this, dst
      ensures Valid()
      ensures stack == old(stack) && bitPos == old(bitPos) % 8
      ensures LeNat(dst[..ptr + 1]) == stack.val
    {
      hide Low, Shr, Shl, Pow2;
      ghost var before := dst[..];
      ghost var t := Flushed();
      ContainerBound();
      var nbBytes := bitPos / 8;
      WriteLE64(dst, ptr, bitContainer);
      FlushBytes(before, dst[..], stack, t, bitPos, nbBytes);
      ptr := ptr + nbBytes;
      bitPos := bitPos % 8;
      bitContainer := Shr(bitContainer, nbBytes * 8);
      assert Flushed() == t + nbBytes;
    }

    /** `BIT_flushBits`: a write that would pass `endPtr` is clamped there. */
    method FlushBits()
      requires Valid()
      modifies this, dst
      ensures Valid()
      ensures stack == old(stack) && bitPos == old(bitPos) % 8
      ensures stack.len / 8 <= endPtr ==> LeNat(dst[..ptr + 1]) == stack.val
    {
      hide Low, Shr, Shl, Pow2;
      ghost var before := dst[..];
      ghost var t := Flushed();
      ContainerBound();
      var nbBytes := bitPos / 8;
      WriteLE64(dst, ptr, bitContainer);
      ShrShr(stack.val, 8 * t, 8 * nbBytes);
      if t <= endPtr {
        FlushBytes(before, dst[..], stack, t, bitPos, nbBytes);
      }
      ptr := ptr + nbBytes;
      if ptr > endPtr { ptr := endPtr; }
      bitPos := bitPos % 8;
      bitContainer := Shr(bitContainer, nbBytes * 8);
      assert Flushed() == t + nbBytes;
    }

    /** The eight bytes written at `t` continue the flushed prefix by `k` whole
        bytes, and the byte after them holds what is left of the container. */
    static lemma FlushBytes(before: seq<Byte>, after: seq<Byte>, s: Stack, t: nat, pos: nat, k: nat)
      requires s.Ok() && s.len == 8 * t + pos && pos < 64 && k == pos / 8
      requires t + 8 <= |before|
      requires LeNat(before[..t]) == Low(s.val, 8 * t)
      requires after == before[..t] + LeBytes(Shr(s.val, 8 * t), 8) + before[t + 8..]
      ensures Shr(s.val, 8 * (t + k)) == Shr(Shr(s.val, 8 * t), k * 8)
      ensures LeNat(after[..t + k]) == Low(s.val, 8 * (t + k))
      ensures LeNat(after[..t + k + 1]) == s.val
    {
      hide Low, Shr, Shl, Pow2;
      ShrShr(s.val, 8 * t, 8 * k);
      BytesPrefix(before, after, s.val, t, k);
      BytesPrefix(before, after, s.val, t, k + 1);
      Pow2Mono(s.len, 8 * (t + k + 1));
      LowSmall(s.val, 8 * (t + k + 1));
    }

    static lemma BytesPrefix(before: seq<Byte>, after: seq<Byte>, x: nat, t: nat, k: nat)
      requires k <= 8 && t + 8 <= |before|
      requires LeNat(before[..t]) == Low(x, 8 * t)
      requires after == before[..t] + LeBytes(Shr(x, 8 * t), 8) + before[t + 8..]
      ensures LeNat(after[..t + k]) == Low(x, 8 * (t + k))
    {
      hide Low, Shr, Shl, Pow2;
      var c := Shr(x, 8 * t);
      var w := LeBytes(c, 8);
      assert after[..t + k] == before[..t] + w[..k];
      LeNatAppend(before[..t], w[..k]);
      LeNatSlice(w, 0, k);
      ShiftNone(LeNat(w));
      assert w[0..k] == w[..k];
      LeNatOfBytes(c, 8);
      LowLow(c, 8 * k, 64 - 8 * k);
      LowSplit(x, 8 * t, 8 * k);
    }

    /** `BIT_closeCStream`: the size of the sealed stream, or 0 exactly when its
        whole bytes would reach `endPtr`. */
    method CloseCStream() returns (size: nat)
      requires Valid() && bitPos < 63
      modifies this, dst
      ensures size == if (old(stack).len + 1) / 8 < endPtr then (old(stack).len + 8) / 8 else 0
      ensures size > 0 ==> size <= dst.Length && Sealed(dst[..size], old(stack))
    {
      hide Low, Shr, Shl, Pow2;
      ShlOne(stack.len);
      Pow2Values();
      AddBitsFast(1, 1);
      FlushBits();
      if ptr >= endPtr { return 0; }
      size := ptr + (if bitPos > 0 then 1 else 0);
      if bitPos == 0 {
        LowSmall(stack.val, 8 * ptr);
      }
    }
  }
  // ----- reader -----

  datatype Status = Unfinished | EndOfBuffer | Completed | Overflow

  /** The bits that `BIT_initDStream` finds in a sealed stream: everything below
      the highest set bit. */
  function Opened(src: seq<Byte>): (s: Stack)
    requires |src| > 0 && src[|src| - 1] > 0
    ensures s.Ok() && s.len == 8 * (|src| - 1) + Highbit(src[|src| - 1])
    ensures LeNat(src) == s.val + Pow2(s.len)
  {
    TopBit(src);
    HighbitBounds(LeNat(src));
    var k := Highbit(LeNat(src));
    Stack(LeNat(src) - Pow2(k), k)
  }

  /** Opening what the writer sealed gives back the writer's stack. */
  lemma OpenSealed(bytes: seq<Byte>, s: Stack)
    requires Sealed(bytes, s)
    ensures |bytes| > 0 && bytes[|bytes| - 1] > 0
    ensures Opened(bytes) == s
  {
    SealedLast(bytes, s);
  }

  /** `BIT_DStream_t`.  `ptr` is an offset from `start`; after an overflow it is
      `ZERO_FILLED`, standing for the address of the constant the source points to. */
  class DStream {
    var bitContainer: nat
    var bitsConsumed: nat
    var ptr: int
    const src: seq<Byte>

    static const ZERO_FILLED := -1

    /** Far from where the 32-bit count of bits would wrap. */
    static const MANY := 0x8000_0000

    /** More bits were asked for than the stream holds. */
    ghost predicate Over()
      reads this
    {
      bitsConsumed > 64
    }

    ghost predicate Valid()
      reads this
    {
      && |src| > 0 && src[|src| - 1] > 0
      && (!Over() ==>
          && 0 <= ptr && (ptr == 0 || ptr + 8 <= |src|)
          && bitContainer == Low(Shr(LeNat(src), 8 * ptr), 64)
          && Remaining() <= Opened(src).len)
    }

    /** The number of bits not read yet. */
    ghost function Remaining(): int
      reads this
    {
      8 * ptr + 64 - bitsConsumed
    }

    /** The bits not read yet. */
    ghost function Unread(): (s: Stack)
      requires Valid() && !Over()
      reads this
      ensures s.Ok() && s.len == Remaining()
    {
      LowBound(LeNat(src), Remaining());
      Stack(Low(LeNat(src), Remaining()), Remaining())
    }

    /** `BIT_initDStream` on a source that it accepts. */
    constructor (src: seq<Byte>)
      requires |src| > 0 && src[|src| - 1] > 0
      ensures Valid() && this.src == src && !Over()
      ensures Unread() == Opened(src)
      ensures bitsConsumed <= 8 || ptr == 0
    {
      hide Low, Shr, Shl, Pow2;
      this.src := src;
      var last := src[|src| - 1];
      HighbitByte(last);
      if |src| >= 8 {
        ptr := |src| - 8;
        bitContainer := LeNat(src[|src| - 8..]);
        bitsConsumed := 8 - Highbit(last);
      } else {
        ptr := 0;
        bitContainer := LeNat(src);
        bitsConsumed := 8 - Highbit(last) + (8 - |src|) * 8;
      }
      new;
      if |src| >= 8 {
        LeNatSlice(src, |src| - 8, |src|);
        assert src[|src| - 8..|src|] == src[|src| - 8..];
      } else {
        LeNatBound(src);
        Pow2Mono(8 * |src|, 64);
        LowSmall(LeNat(src), 64);
        ShiftNone(LeNat(src));
      }
      SealedOpen(src);
    }

    static lemma HighbitByte(b: Byte)
      requires b > 0
      ensures Highbit(b) < 8
    {
      HighbitBounds(b);
      if Highbit(b) >= 8 { Pow2Mono(8, Highbit(b)); Pow2Values(); }
    }

    static lemma SealedOpen(src: seq<Byte>)
      requires |src| > 0 && src[|src| - 1] > 0
      ensures Low(LeNat(src), Opened(src).len) == Opened(src).val
    {
      var s := Opened(src);
      ShlOne(s.len);
      Join(s.val, 1, s.len);
    }

    /** `BIT_lookBits`: with fewer bits left than `nbBits` the result is whatever
        the masked shift gives. */
    method LookBits(nbBits: nat) returns (value: nat)
      requires Valid() && nbBits < 32
      ensures value < Pow2(nbBits)
      ensures !Over() && nbBits <= 64 - bitsConsumed ==> value == Unread().Top(nbBits)
    {
      hide Low, Shr, Shl, Pow2;
      var start := (64 - bitsConsumed - nbBits) % 0x1_0000_0000 % 64;
      AndMask(Shr(bitContainer, start), nbBits);
      LowBound(Shr(bitContainer, start), nbBits);
      value := BitAnd(Shr(bitContainer, start), Pow2(nbBits) - 1);
      if !Over() && nbBits <= 64 - bitsConsumed {
        if nbBits == 0 {
          ShiftNone(Shr(bitContainer, start));
          TopNone(Unread());
        } else {
          assert start == 64 - bitsConsumed - nbBits;
          TopOfWindow(start, nbBits);
        }
      }
    }

    static lemma TopNone(s: Stack)
      requires s.Ok()
      ensures s.Top(0) == 0
    {
      LowSmall(s.val, s.len);
    }

    lemma TopOfWindow(start: nat, nbBits: nat)
      requires Valid() && !Over() && start + nbBits == 64 - bitsConsumed
      ensures Low(Shr(bitContainer, start), nbBits) == Unread().Top(nbBits)
    {
      FieldOf(LeNat(src), 8 * ptr, start, nbBits);
      assert 8 * ptr + start + nbBits == Remaining();
    }

    /** A field of the 64-bit window at bit `a` is a field of the whole number. */
    static lemma FieldOf(n: nat, a: nat, b: nat, nb: nat)
      requires b + nb <= 64
      ensures Low(Shr(Low(Shr(n, a), 64), b), nb) == Shr(Low(n, a + b + nb), a + b)
    {
      hide Low, Shr, Shl, Pow2;
      var w := Shr(n, a);
      LowLow(w, b, 64 - b);
      LowLow(Shr(w, b), nb, 64 - b - nb);
      ShrShr(n, a, b);
      LowLow(n, a + b, nb);
    }

    /** `BIT_readBits`. */
    method ReadBits(nbBits: nat) returns (value: nat)
      requires Valid() && nbBits < 32 && bitsConsumed < MANY
      requires !Over() ==> nbBits <= 64 - bitsConsumed || ptr == 0
      modifies this`bitsConsumed
      ensures Valid() && value < Pow2(nbBits)
      ensures Took(old(Over()), if old(Over()) then Empty else old(Unread()), nbBits, value)
      ensures bitsConsumed == old(bitsConsumed) + nbBits
    {
      hide Low, Shr, Shl, Pow2;
      value := LookBits(nbBits);
      bitsConsumed := bitsConsumed + nbBits;
      if !Over() { LowLow(LeNat(src), Remaining(), nbBits); }
    }

    /** What one read does to the stream: it pops the stack, or overflows for good. */
    ghost predicate Took(wasOver: bool, before: Stack, nbBits: nat, value: nat)
      requires Valid() && before.Ok()
      reads this
    {
      if wasOver || nbBits > before.len then Over()
      else !Over() && value == before.Top(nbBits) && Unread() == before.Pop(nbBits)
    }

    /** `BIT_readBitsFast`: only for `nbBits >= 1`. */
    method ReadBitsFast(nbBits: nat) returns (value: nat)
      requires Valid() && 1 <= nbBits < 32 && bitsConsumed < MANY
      requires !Over() ==> nbBits <= 64 - bitsConsumed || ptr == 0
      modifies this`bitsConsumed
      ensures Valid() && value < Pow2(nbBits)
      ensures Took(old(Over()), if old(Over()) then Empty else old(Unread()), nbBits, value)
      ensures bitsConsumed == old(bitsConsumed) + nbBits
    {
      hide Low, Shr, Shl, Pow2;
      value := LookBitsFast(nbBits);
      bitsConsumed := bitsConsumed + nbBits;
      if !Over() { LowLow(LeNat(src), Remaining(), nbBits); }
    }

    /** `BIT_lookBitsFast`. */
    method LookBitsFast(nbBits: nat) returns (value: nat)
      requires Valid() && 1 <= nbBits < 32
      ensures value < Pow2(nbBits)
      ensures !Over() && nbBits <= 64 - bitsConsumed ==> value == Unread().Top(nbBits)
    {
      hide Low, Shr, Shl, Pow2;
      value := Shr(Low(Shl(bitContainer, bitsConsumed % 64), 64), (64 - nbBits) % 64);
      FastBound(Shl(bitContainer, bitsConsumed % 64), nbBits);
      if !Over() && nbBits <= 64 - bitsConsumed {
        UpDown(bitContainer, bitsConsumed, nbBits);
        TopOfWindow(64 - bitsConsumed - nbBits, nbBits);
      }
    }

    static lemma FastBound(x: nat, nb: nat)
      requires 1 <= nb < 32
      ensures (64 - nb) % 64 == 64 - nb
      ensures Shr(Low(x, 64), 64 - nb) < Pow2(nb)
    {
      hide Low, Shr, Shl, Pow2;
      LowBound(x, 64);
      ShrBound(Low(x, 64), 64 - nb, nb);
    }

    /** Shifting left by `c` and right by `64 - nb` picks the same field as
        shifting right and masking. */
    static lemma UpDown(x: nat, c: nat, nb: nat)
      requires c + nb <= 64
      ensures Shr(Low(Shl(x, c), 64), 64 - nb) == Low(Shr(x, 64 - c - nb), nb)
    {
      hide Low, Shr, Shl, Pow2;
      var m := 64 - c - nb;
      LowLow(Shl(x, c), 64 - nb, nb);
      ShrShr(Shl(x, c), c, m);
      ShrShl(x, c);
    }

    /** `BIT_reloadDStream`.  Afterwards the register is filled with at least 57
        bits unless the start of the buffer is in it. */
    method Reload() returns (status: Status)
      requires Valid()
      modifies this
      ensures Valid() && Over() == old(Over())
      ensures !Over() ==> Unread() == old(Unread())
      ensures !Over() ==> bitsConsumed < 8 || ptr == 0
      ensures Over() ==> bitsConsumed == old(bitsConsumed)
      ensures status == Overflow <==> Over()
      ensures status == Completed <==> !Over() && Unread().len == 0
      ensures status == Unfinished ==> bitsConsumed < 8
    {
      hide Low, Shr, Shl, Pow2;
      if bitsConsumed > 64 {
        ptr := ZERO_FILLED;
        return Overflow;
      }
      if ptr >= 8 {
        ptr := ptr - bitsConsumed / 8;
        bitsConsumed := bitsConsumed % 8;
        bitContainer := Window(ptr);
        return Unfinished;
      }
      if ptr == 0 {
        return if bitsConsumed < 64 then EndOfBuffer else Completed;
      }
      var nbBytes := bitsConsumed / 8;
      status := Unfinished;
      if ptr - nbBytes < 0 {
        nbBytes := ptr;
        status := EndOfBuffer;
      }
      ptr := ptr - nbBytes;
      bitsConsumed := bitsConsumed - nbBytes * 8;
      bitContainer := Window(ptr);
    }

    /** `MEM_readLE64`. */
    function Window(at: nat): (w: nat)
      requires at + 8 <= |src|
      ensures w == Low(Shr(LeNat(src), 8 * at), 64)
    {
      LeNatSlice(src, at, at + 8);
      LeNat(src[at..at + 8])
    }

    /** `BIT_endOfDStream`: every bit was read, and no more. */
    method EndOfDStream() returns (end: bool)
      requires Valid()
      ensures end <==> !Over() && Unread().len == 0
    {
      end := ptr == 0 && bitsConsumed == 64;
    }
  }

  function OpenError(src: seq<Byte>): Error
  {
    if |src| < 1 then SrcSizeWrong else if |src| >= 8 then Generic else CorruptionDetected
  }

  /** `BIT_initDStream`: a source is accepted exactly when it has a last byte with
      an end mark in it. */
  method InitDStream(src: seq<Byte>) returns (r: Result<DStream>)
    ensures r.Ok? <==> |src| > 0 && src[|src| - 1] > 0
    ensures r.Ok? ==> r.value.Valid() && r.value.src == src && fresh(r.value)
    ensures r.Ok? ==> !r.value.Over() && r.value.Unread() == Opened(src)
    ensures r.Ok? ==> r.value.bitsConsumed <= 8 || r.value.ptr == 0
    ensures r.Err? ==> r.error == OpenError(src)
  {
    if |src| < 1 { return Err(SrcSizeWrong); }
    if src[|src| - 1] == 0 {
      return Err(if |src| >= 8 then Generic else CorruptionDetected);
    }
    var d := new DStream(src);
    return Ok(d);
  }

  // ----- whole runs -----

  /** The stream is a client's stack, however it spreads its flushes: `early` says where
      it flushes though the register has room. */
  method WriteFields(dst: array<Byte>, fs: seq<Field>, early: seq<bool>) returns (size: nat)
    requires dst.Length > 8 && |early| == |fs| && Clean(fs)
    requires forall i :: 0 <= i < |fs| ==> fs[i].width < 32
    modifies dst
    ensures var s := PushAll(Empty, fs); size == if (s.len + 1) / 8 < dst.Length - 8 then (s.len + 8) / 8 else 0
    ensures size > 0 ==> size <= dst.Length && Sealed(dst[..size], PushAll(Empty, fs))
  {
    hide Low, Shr, Shl, Pow2, Sealed;
    var c := new CStream(dst);
    for i := 0 to |fs|
      invariant fresh(c) && c.dst == dst && c.endPtr == dst.Length - 8 && c.Valid() && c.bitPos < 63
      invariant c.stack == PushAll(Empty, fs[..i])
    {
      if early[i] || c.bitPos + fs[i].width >= 63 { c.FlushBits(); }
      LowSmall(fs[i].value, fs[i].width);
      assert fs[..i + 1][..i] == fs[..i];
      c.AddBits(fs[i].value, fs[i].width);
    }
    assert fs[..|fs|] == fs;
    size := c.CloseCStream();
  }

  /** What reading fields of the given widths off a source gives: the values as far as
      there are bits, and whether these were all the bits. */
  ghost predicate ReadsAs(r: Result<(seq<nat>, bool)>, src: seq<Byte>, widths: seq<nat>)
  {
    if |src| == 0 || src[|src| - 1] == 0 then r == Err(OpenError(src))
    else
      var (values, rest) := ReadAll(Opened(src), widths);
      && r.Ok? && values <= r.value.0
      && (r.value.1 <==> |values| == |widths| && rest.len == 0)
      && (r.value.1 ==> r.value.0 == values)
  }

  function Prepended(values: seq<nat>, r: (seq<nat>, Stack)): (seq<nat>, Stack) { (values + r.0, r.1) }

  lemma ReadNext(values: seq<nat>, s: Stack, widths: seq<nat>)
    requires s.Ok() && |widths| > 0
    ensures Prepended(values, ReadAll(s, widths))
         == if s.len < widths[0] then (values, s)
            else Prepended(values + [s.Top(widths[0])], ReadAll(s.Pop(widths[0]), widths[1..]))
  {
    if s.len < widths[0] {
      assert values + [] == values;
    } else {
      ReadStep(s, widths);
      var more := ReadAll(s.Pop(widths[0]), widths[1..]).0;
      assert values + ([s.Top(widths[0])] + more) == values + [s.Top(widths[0])] + more;
    }
  }

  /** And a reader's, on every source, however it spreads its reloads. */
  method ReadFields(src: seq<Byte>, widths: seq<nat>, early: seq<bool>) returns (r: Result<(seq<nat>, bool)>)
    requires |early| == |widths| && forall i :: 0 <= i < |widths| ==> widths[i] < 32
    ensures ReadsAs(r, src, widths)
  {
    hide Low, Shr, Shl, Pow2, Opened;
    var d := InitDStream(src);
    if d.Err? { return Err(d.error); }
    var stream, values := d.value, [];
    ghost var all := ReadAll(Opened(src), widths);
    assert widths[0..] == widths && [] + all.0 == all.0;
    for i := 0 to |widths|
      invariant fresh(stream) && stream.Valid() && stream.src == src && |values| == i
      invariant if stream.Over() then all.0 <= values && |all.0| < i && stream.bitsConsumed < 128
                else all == Prepended(values, ReadAll(stream.Unread(), widths[i..]))
    {
      if early[i] || stream.bitsConsumed + widths[i] > 64 {
        var status := stream.Reload();
        if status == Overflow { return Ok((values, false)); }
      }
      assert widths[i..][1..] == widths[i + 1..];
      if !stream.Over() { ReadNext(values, stream.Unread(), widths[i..]); }
      var value := stream.ReadBits(widths[i]);
      values := values + [value];
    }
    var end := stream.EndOfDStream();
    return Ok((values, end));
  }

  /** So fields that a client adds, with flushes wherever it likes, and closes, are what
      another reads in reverse order, with reloads wherever it likes; after the last it
      is at the end of the stream. */
  lemma WrittenIsRead(fs: seq<Field>, bytes: seq<Byte>, r: Result<(seq<nat>, bool)>)
    requires Clean(fs) && Sealed(bytes, PushAll(Empty, fs)) && ReadsAs(r, bytes, ReverseWidths(fs))
    ensures r == Ok((ReverseValues(fs), true))
  {
    hide Sealed, Opened;
    OpenSealed(bytes, PushAll(Empty, fs));
    LastInFirstOut(Empty, fs);
  }
}
