/** Powers of two, shifts, masks, bitwise or, and little-endian bytes.

    Words are natural numbers.  Shifts and masks are defined one bit at a time, so
    that every proof about them is linear: `Shl`, `Shr` and `Low` are C's `x << n`
    (before any wrap), `x >> n` and `x & ((1 << n) - 1)`. */
module Bits {

  function Pow2(n: nat): (p: nat)
    ensures p >= 1
  {
    if n == 0 then 1 else 2 * Pow2(n - 1)
  }

  function Max(a: nat, b: nat): nat { if a < b then b else a }

  function Shl(x: nat, n: nat): nat
    decreases n, x
  {
    if n == 0 then x else 2 * Shl(x, n - 1)
  }

  function Shr(x: nat, n: nat): nat
    decreases n, x
  {
    if n == 0 then x else Shr(x / 2, n - 1)
  }

  function Low(x: nat, n: nat): nat
    decreases n, x
  {
    if n == 0 then 0 else x % 2 + 2 * Low(x / 2, n - 1)
  }

  lemma Pow2Values()
    ensures Pow2(0) == 1 && Pow2(1) == 2 && Pow2(2) == 4 && Pow2(3) == 8 && Pow2(4) == 16
    ensures Pow2(5) == 32 && Pow2(6) == 64 && Pow2(7) == 128 && Pow2(8) == 256
    ensures Pow2(9) == 512 && Pow2(10) == 1024 && Pow2(11) == 2048 && Pow2(12) == 4096
    ensures Pow2(13) == 8192 && Pow2(15) == 0x8000 && Pow2(16) == 0x1_0000
  {
    assert Pow2(4) == 16;
    assert Pow2(8) == 256;
    assert Pow2(12) == 4096;
    assert Pow2(16) == 0x1_0000;
  }

  lemma Pow2Wide()
    ensures Pow2(24) == 0x100_0000
    ensures Pow2(30) == 0x4000_0000 && Pow2(31) == 0x8000_0000 && Pow2(32) == 0x1_0000_0000
    ensures Pow2(62) == 0x4000_0000_0000_0000
    ensures Pow2(64) == 0x1_0000_0000_0000_0000
  {
    Pow2Values();
    Pow2Add(12, 12);
    Pow2Add(16, 14);
    Pow2Add(16, 16);
    Pow2Add(32, 30);
    Pow2Add(32, 32);
    assert Pow2(31) == 2 * Pow2(30);
  }

  lemma {:induction false} Pow2Add(a: nat, b: nat)
    ensures Pow2(a + b) == Pow2(a) * Pow2(b)
  {
    if a != 0 {
      Pow2Add(a - 1, b);
      assert Pow2(a + b) == 2 * Pow2(a - 1 + b);
      DoubleProduct(Pow2(a - 1), Pow2(b));
    }
  }

  lemma MulMono(a: nat, b: nat, c: nat)
    requires a <= b
    ensures a * c <= b * c
  {
    assert b * c == a * c + (b - a) * c;
  }

  lemma DoubleProduct(a: int, b: int)
    ensures (2 * a) * b == 2 * (a * b)
  {}

  lemma {:induction false} Pow2Mono(a: nat, b: nat)
    requires a <= b
    ensures Pow2(a) <= Pow2(b)
    ensures a < b ==> 2 * Pow2(a) <= Pow2(b)
    decreases b
  {
    if a < b { Pow2Mono(a, b - 1); }
  }

  // ----- shifts and masks -----

  lemma Remainder(x: nat, q: nat, r: nat, n: nat)
    requires x == q * n + r && r < n
    ensures x / n == q && x % n == r
  {
    var p := x / n;
    assert x == p * n + x % n;
    if p < q { MulMono(p + 1, q, n); }
    if q < p { MulMono(q + 1, p, n); }
  }

  lemma ShlNext(x: nat, n: nat)
    ensures Shl(x, n + 1) == 2 * Shl(x, n)
  {}

  lemma Pow2Next(n: nat)
    ensures Pow2(n + 1) == 2 * Pow2(n)
  {}

  lemma ShiftNone(x: nat)
    ensures Shl(x, 0) == x && Shr(x, 0) == x && Low(x, 0) == 0
  {}

  lemma {:induction false} ShlOne(n: nat)
    ensures Shl(1, n) == Pow2(n)
  {
    if n > 0 { ShlOne(n - 1); }
  }

  lemma {:induction false} ShlZero(n: nat)
    ensures Shl(0, n) == 0
  {
    if n > 0 { ShlZero(n - 1); }
  }

  lemma {:induction false} ShlAdd(x: nat, y: nat, n: nat)
    ensures Shl(x + y, n) == Shl(x, n) + Shl(y, n)
    decreases n
  {
    if n > 0 { ShlAdd(x, y, n - 1); }
  }

  lemma {:induction false} ShlShl(x: nat, a: nat, b: nat)
    ensures Shl(Shl(x, a), b) == Shl(x, a + b)
    decreases b
  {
    if b > 0 { ShlShl(x, a, b - 1); }
  }

  lemma {:induction false} ShlIsMul(x: nat, n: nat)
    ensures Shl(x, n) == x * Pow2(n)
    decreases n
  {
    if n > 0 {
      ShlIsMul(x, n - 1);
      DoubleProduct(Pow2(n - 1), x);
      assert x * Pow2(n - 1) == Pow2(n - 1) * x;
      assert x * Pow2(n) == Pow2(n) * x;
    }
  }

  lemma {:induction false} ShlMono(x: nat, y: nat, n: nat)
    requires x <= y
    ensures Shl(x, n) <= Shl(y, n)
    ensures x < y ==> Shl(x, n) + Pow2(n) <= Shl(y, n)
    decreases n
  {
    if n > 0 { ShlMono(x, y, n - 1); }
  }

  lemma {:induction false} LowBound(x: nat, n: nat)
    ensures Low(x, n) < Pow2(n)
    ensures Low(x, n) <= x
    decreases n
  {
    if n > 0 { LowBound(x / 2, n - 1); }
  }

  /** A word is its low part plus its high part, shifted back. */
  lemma {:induction false} Split(x: nat, n: nat)
    ensures x == Low(x, n) + Shl(Shr(x, n), n)
    decreases n
  {
    if n > 0 { Split(x / 2, n - 1); }
  }

  /** ... and there is no other way to split it. */
  lemma {:induction false} Join(lo: nat, hi: nat, n: nat)
    requires lo < Pow2(n)
    ensures Low(lo + Shl(hi, n), n) == lo
    ensures Shr(lo + Shl(hi, n), n) == hi
    decreases n
  {
    if n > 0 {
      var x := lo + Shl(hi, n);
      assert x / 2 == lo / 2 + Shl(hi, n - 1) && x % 2 == lo % 2;
      Join(lo / 2, hi, n - 1);
    }
  }

  lemma JoinBound(lo: nat, hi: nat, a: nat, b: nat)
    requires lo < Pow2(a) && hi < Pow2(b)
    ensures lo + Shl(hi, a) < Pow2(a + b)
  {
    ShlMono(hi, Pow2(b), a);
    ShlOne(b);
    ShlShl(1, b, a);
    ShlOne(a + b);
  }

  lemma LowSmall(x: nat, n: nat)
    requires x < Pow2(n)
    ensures Low(x, n) == x && Shr(x, n) == 0
  {
    ShlZero(n);
    Join(x, 0, n);
  }

  lemma {:induction false} ShrShr(x: nat, a: nat, b: nat)
    ensures Shr(Shr(x, a), b) == Shr(x, a + b)
    decreases a
  {
    if a > 0 { ShrShr(x / 2, a - 1, b); }
  }

  lemma {:induction false} LowLow(x: nat, a: nat, b: nat)
    ensures Low(Low(x, a + b), a) == Low(x, a)
    ensures Shr(Low(x, a + b), a) == Low(Shr(x, a), b)
    decreases a
  {
    if a > 0 {
      LowLow(x / 2, a - 1, b);
      assert Low(x, a + b) / 2 == Low(x / 2, a - 1 + b);
    }
  }

  lemma {:induction false} LowSplit(x: nat, a: nat, b: nat)
    ensures Low(x, a + b) == Low(x, a) + Shl(Low(Shr(x, a), b), a)
    decreases a
  {
    LowLow(x, a, b);
    Split(Low(x, a + b), a);
  }

  lemma {:induction false} ShrBound(x: nat, a: nat, b: nat)
    requires x < Pow2(a + b)
    ensures Shr(x, a) < Pow2(b)
    decreases a
  {
    if a > 0 { ShrBound(x / 2, a - 1, b); }
  }

  lemma {:induction false} ShrMono(x: nat, y: nat, n: nat)
    requires x <= y
    ensures Shr(x, n) <= Shr(y, n)
    decreases n
  {
    if n > 0 { ShrMono(x / 2, y / 2, n - 1); }
  }

  /** `x >> n` against a bound, without the shift. */
  lemma ShrVersusShl(x: nat, y: nat, n: nat)
    ensures Shr(x, n) >= y <==> x >= Shl(y, n)
  {
    Split(x, n);
    LowBound(x, n);
    var h := Shr(x, n);
    if h >= y {
      ShlMono(y, h, n);
    } else {
      ShlMono(h, y, n);
    }
  }

  lemma ShrShl(x: nat, n: nat)
    ensures Shr(Shl(x, n), n) == x && Low(Shl(x, n), n) == 0
  {
    Join(0, x, n);
  }

  // ----- highest set bit -----

  /** `ZSTD_highbit32`: the index of the highest set bit. */
  function Highbit(x: nat): nat
    requires x > 0
  {
    if x == 1 then 0 else 1 + Highbit(x / 2)
  }

  lemma {:induction false} HighbitBounds(x: nat)
    requires x > 0
    ensures Pow2(Highbit(x)) <= x < Pow2(Highbit(x) + 1)
  {
    if x > 1 { HighbitBounds(x / 2); }
  }

  lemma HighbitUnique(x: nat, h: nat)
    requires Pow2(h) <= x < Pow2(h + 1)
    ensures Highbit(x) == h
  {
    var k := Highbit(x);
    HighbitBounds(x);
    if k < h {
      Pow2Mono(k + 1, h);
    } else if h < k {
      Pow2Mono(h + 1, k);
    }
  }

  // ----- bitwise operators, bit by bit -----

  function BitAnd(x: nat, y: nat): nat
    decreases x
  {
    if x == 0 || y == 0 then 0
    else (if x % 2 == 1 && y % 2 == 1 then 1 else 0) + 2 * BitAnd(x / 2, y / 2)
  }

  function BitOr(x: nat, y: nat): nat
    decreases x + y
  {
    if x == 0 then y else if y == 0 then x
    else (if x % 2 == 1 || y % 2 == 1 then 1 else 0) + 2 * BitOr(x / 2, y / 2)
  }

  function BitXor(x: nat, y: nat): nat
    decreases x + y
  {
    if x == 0 then y else if y == 0 then x
    else (if x % 2 != y % 2 then 1 else 0) + 2 * BitXor(x / 2, y / 2)
  }

  /** Masking with `2^n - 1` keeps the low `n` bits. */
  lemma {:induction false} AndMask(x: nat, n: nat)
    ensures BitAnd(x, Pow2(n) - 1) == Low(x, n)
    decreases n
  {
    if n > 0 {
      assert (Pow2(n) - 1) / 2 == Pow2(n - 1) - 1;
      AndMask(x / 2, n - 1);
      if x == 0 { LowBound(x, n); }
    }
  }

  /** Or-ing in a value above the bits in use is addition. */
  lemma {:induction false} OrAbove(x: nat, y: nat, n: nat)
    requires x < Pow2(n)
    ensures BitOr(x, Shl(y, n)) == x + Shl(y, n)
    decreases n
  {
    if n > 0 { OrAbove(x / 2, y, n - 1); }
  }

  /** A right shift distributes over or. */
  lemma {:induction false} OrShr(x: nat, y: nat, n: nat)
    ensures Shr(BitOr(x, y), n) == BitOr(Shr(x, n), Shr(y, n))
    decreases n
  {
    if n > 0 {
      assert BitOr(x, y) / 2 == BitOr(x / 2, y / 2);
      OrShr(x / 2, y / 2, n - 1);
    }
  }

  lemma {:induction false} OrBound(x: nat, y: nat, n: nat)
    requires x < Pow2(n) && y < Pow2(n)
    ensures BitOr(x, y) < Pow2(n)
    decreases n
  {
    if n > 0 && x > 0 && y > 0 {
      OrBound(x / 2, y / 2, n - 1);
    }
  }

  lemma LowIsMod(x: nat, n: nat)
    ensures Low(x, n) == x % Pow2(n)
  {
    hide Low, Shl, Shr, Pow2;
    Split(x, n);
    LowBound(x, n);
    ShlIsMul(Shr(x, n), n);
    Remainder(x, Shr(x, n), Low(x, n), Pow2(n));
  }

  lemma ShrIsDiv(x: nat, n: nat)
    ensures Shr(x, n) == x / Pow2(n)
  {
    hide Low, Shl, Shr, Pow2;
    Split(x, n);
    LowBound(x, n);
    ShlIsMul(Shr(x, n), n);
    Remainder(x, Shr(x, n), Low(x, n), Pow2(n));
  }

  // ----- little-endian bytes -----

  type Byte = b: nat | b < 256

  /** The number whose little-endian digits are `s`. */
  function LeNat(s: seq<Byte>): nat
  {
    if |s| == 0 then 0 else s[0] + 256 * LeNat(s[1..])
  }

  /** The low `k` bytes of `x`, least significant first (`MEM_writeLE64` for `k == 8`). */
  function LeBytes(x: nat, k: nat): (s: seq<Byte>)
    ensures |s| == k
  {
    if k == 0 then [] else [x % 256] + LeBytes(x / 256, k - 1)
  }

  lemma ShlByte(x: nat, k: nat)
    ensures Shl(x, 8 * (k + 1)) == 256 * Shl(x, 8 * k)
    ensures Pow2(8 * (k + 1)) == 256 * Pow2(8 * k)
    ensures Low(x, 8 * (k + 1)) == x % 256 + 256 * Low(x / 256, 8 * k)
    ensures Shr(x, 8 * (k + 1)) == Shr(x / 256, 8 * k)
  {
    var n := 8 * k;
    assert 8 * (k + 1) == n + 8;
    assert Shl(x, n + 8) == 4 * Shl(x, n + 6) == 16 * Shl(x, n + 4) == 64 * Shl(x, n + 2);
    assert Pow2(n + 8) == 4 * Pow2(n + 6) == 16 * Pow2(n + 4) == 64 * Pow2(n + 2);
    LowHalves(x, n);
  }

  lemma LowHalves(x: nat, n: nat)
    ensures Low(x, n + 8) == x % 256 + 256 * Low(x / 256, n)
    ensures Shr(x, n + 8) == Shr(x / 256, n)
  {
    hide Low, Shr;
    LowQuarter(x, n + 4);
    LowQuarter(x / 16, n);
  }

  lemma LowQuarter(x: nat, n: nat)
    ensures Low(x, n + 4) == x % 16 + 16 * Low(x / 16, n)
    ensures Shr(x, n + 4) == Shr(x / 16, n)
  {
    hide Low, Shr;
    LowPair(x, n + 2);
    LowPair(x / 4, n);
  }

  lemma LowPair(x: nat, n: nat)
    ensures Low(x, n + 2) == x % 4 + 4 * Low(x / 4, n)
    ensures Shr(x, n + 2) == Shr(x / 4, n)
  {}

  lemma {:induction false} LeNatBound(s: seq<Byte>)
    ensures LeNat(s) < Pow2(8 * |s|)
  {
    if |s| > 0 {
      LeNatBound(s[1..]);
      ShlByte(0, |s| - 1);
    }
  }

  lemma {:induction false} LeNatAppend(a: seq<Byte>, b: seq<Byte>)
    ensures LeNat(a + b) == LeNat(a) + Shl(LeNat(b), 8 * |a|)
  {
    if |a| == 0 {
      assert a + b == b;
    } else {
      assert (a + b)[1..] == a[1..] + b;
      LeNatAppend(a[1..], b);
      ShlByte(LeNat(b), |a| - 1);
    }
  }

  /** A slice of the bytes is a field of the number. */
  lemma LeNatSlice(s: seq<Byte>, i: nat, j: nat)
    requires i <= j <= |s|
    ensures LeNat(s[i..j]) == Low(Shr(LeNat(s), 8 * i), 8 * (j - i))
  {
    hide Low, Shr, Shl, Pow2;
    assert s == s[..i] + s[i..];
    assert s[i..] == s[i..j] + s[j..];
    LeNatAppend(s[..i], s[i..]);
    LeNatAppend(s[i..j], s[j..]);
    LeNatBound(s[..i]);
    LeNatBound(s[i..j]);
    Join(LeNat(s[..i]), LeNat(s[i..]), 8 * i);
    Join(LeNat(s[i..j]), LeNat(s[j..]), 8 * (j - i));
  }

  lemma {:induction false} LeNatOfBytes(x: nat, k: nat)
    ensures LeNat(LeBytes(x, k)) == Low(x, 8 * k)
    decreases k
  {
    if k > 0 {
      LeNatOfBytes(x / 256, k - 1);
      ShlByte(x, k - 1);
      assert LeBytes(x, k)[1..] == LeBytes(x / 256, k - 1);
    }
  }

  lemma FourBytes(a: Byte, b: Byte, c: Byte, d: Byte)
    ensures LeNat([a, b, c, d]) == a + 0x100 * b + 0x1_0000 * c + 0x100_0000 * d
  {
    assert [d][1..] == [] && LeNat([d]) == d;
    assert [c, d][1..] == [d] && LeNat([c, d]) == c + 256 * d;
    assert [b, c, d][1..] == [c, d] && LeNat([b, c, d]) == b + 256 * LeNat([c, d]);
    assert [a, b, c, d][1..] == [b, c, d];
  }
}
