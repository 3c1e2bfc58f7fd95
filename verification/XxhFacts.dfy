/** XXH64: its steps are one to one, and how to carry them out on concrete words. */
module XxhFacts {
  import opened Bits
  import opened Xxh64

  // ----- exclusive or, byte by byte -----

  lemma XorUnfold(x: nat, y: nat)
    requires x > 0 && y > 0
    ensures BitXor(x, y) == (if x % 2 != y % 2 then 1 else 0) + 2 * BitXor(x / 2, y / 2)
  {}

  lemma XorZero(x: nat)
    ensures BitXor(x, 0) == x == BitXor(0, x)
  {}

  lemma XorStep(x: nat, y: nat)
    ensures BitXor(x, y) == (if x % 2 != y % 2 then 1 else 0) + 2 * BitXor(x / 2, y / 2)
  {
    hide BitXor;
    if x > 0 && y > 0 {
      XorUnfold(x, y);
    } else {
      XorZero(x);
      XorZero(y);
      XorZero(x / 2);
      XorZero(y / 2);
    }
  }

  lemma Halves(a: bv8)
    ensures (a >> 1) as nat == (a as nat) / 2 && (a & 1) as nat == (a as nat) % 2
  {}

  lemma XorHalves(a: bv8, b: bv8)
    ensures ((a >> 1) ^ (b >> 1)) as nat == ((a ^ b) as nat) / 2
    ensures ((a ^ b) as nat) % 2 == if (a as nat) % 2 != (b as nat) % 2 then 1 else 0
  {
    Halves(a);
    Halves(b);
    Halves(a ^ b);
    XorLast(a, b);
    assert (a ^ b) >> 1 == (a >> 1) ^ (b >> 1);
  }

  lemma XorLast(a: bv8, b: bv8)
    ensures ((a ^ b) & 1) as nat == if (a & 1) as nat != (b & 1) as nat then 1 else 0
  {}

  lemma Positive(a: bv8)
    ensures a == 0 <==> a as nat == 0
  {}

  /** The processor's exclusive or is the one of numbers. */
  lemma {:induction false} XorByte(a: bv8, b: bv8)
    ensures BitXor(a as nat, b as nat) == (a ^ b) as nat
    decreases a as nat + b as nat
  {
    hide BitXor;
    if a == 0 && b == 0 {
      XorZero(0);
    } else {
      Positive(a);
      Positive(b);
      Halves(a);
      Halves(b);
      XorHalves(a, b);
      XorByte(a >> 1, b >> 1);
      Doubled(a as nat, b as nat, (a ^ b) as nat);
    }
  }

  lemma Doubled(x: nat, y: nat, z: nat)
    requires BitXor(x / 2, y / 2) == z / 2 && z % 2 == if x % 2 != y % 2 then 1 else 0
    ensures BitXor(x, y) == z
  {
    hide BitXor;
    XorStep(x, y);
  }

  lemma {:induction false} XorJoin(a: nat, b: nat, c: nat, d: nat, n: nat)
    requires b < Pow2(n) && d < Pow2(n)
    ensures BitXor(b + Shl(a, n), d + Shl(c, n)) == BitXor(b, d) + Shl(BitXor(a, c), n)
    decreases n
  {
    hide BitXor;
    if n == 0 {
      XorZero(0);
    } else {
      XorJoin(a, b / 2, c, d / 2, n - 1);
      XorStep(b, d);
      XorStep(b + Shl(a, n), d + Shl(c, n));
    }
  }

  lemma XorOnTop(a: nat, b: nat, c: nat, d: nat, n: nat, p: nat)
    requires p == Pow2(n) && b < p && d < p
    ensures BitXor(p * a + b, p * c + d) == p * BitXor(a, c) + BitXor(b, d)
  {
    hide BitXor, Shl, Pow2;
    ShlIsMul(a, n);
    ShlIsMul(c, n);
    ShlIsMul(BitXor(a, c), n);
    XorJoin(a, b, c, d, n);
  }

  function High(a: bv16): bv8 { (a >> 8) as bv8 }

  function Octet(a: bv16): bv8 { (a & 0xFF) as bv8 }

  lemma TwoParts(a: bv16)
    ensures a as nat == 256 * ((a >> 8) as nat) + ((a & 0xFF) as nat)
  {}

  lemma Narrow(a: bv16)
    requires a < 0x100
    ensures (a as bv8) as nat == a as nat
  {}

  lemma TwoBytes(a: bv16)
    ensures a as nat == 256 * (High(a) as nat) + (Octet(a) as nat)
  {
    TwoParts(a);
    Narrow(a >> 8);
    Narrow(a & 0xFF);
  }

  lemma XorParts(a: bv16, b: bv16)
    ensures High(a ^ b) == High(a) ^ High(b) && Octet(a ^ b) == Octet(a) ^ Octet(b)
  {}

  lemma XorPair(a: bv16, b: bv16)
    ensures BitXor(a as nat, b as nat) == (a ^ b) as nat
  {
    hide BitXor, High, Octet, Pow2;
    Pow2Values();
    TwoBytes(a);
    TwoBytes(b);
    TwoBytes(a ^ b);
    XorParts(a, b);
    XorByte(High(a), High(b));
    XorByte(Octet(a), Octet(b));
    XorOnTop(High(a) as nat, Octet(a) as nat, High(b) as nat, Octet(b) as nat, 8, 0x100);
  }

  function Above(x: nat, y: nat): nat { 0x1_0000 * x + y }

  lemma AboveXor(x: nat, y: nat, a: nat, b: nat)
    requires a < 0x1_0000 && b < 0x1_0000
    ensures BitXor(Above(x, a), Above(y, b)) == Above(BitXor(x, y), BitXor(a, b))
  {
    hide BitXor, Pow2;
    Pow2Values();
    XorOnTop(x, a, y, b, 16, 0x1_0000);
  }

  function FromParts(n3: nat, n2: nat, n1: nat, n0: nat): nat { Above(Above(Above(n3, n2), n1), n0) }

  lemma FromPartsXor(a3: nat, a2: nat, a1: nat, a0: nat, b3: nat, b2: nat, b1: nat, b0: nat)
    requires a2 < 0x1_0000 && a1 < 0x1_0000 && a0 < 0x1_0000 && b2 < 0x1_0000 && b1 < 0x1_0000 && b0 < 0x1_0000
    ensures BitXor(FromParts(a3, a2, a1, a0), FromParts(b3, b2, b1, b0))
            == FromParts(BitXor(a3, b3), BitXor(a2, b2), BitXor(a1, b1), BitXor(a0, b0))
  {
    hide BitXor, Above;
    AboveXor(a3, b3, a2, b2);
    AboveXor(Above(a3, a2), Above(b3, b2), a1, b1);
    AboveXor(Above(Above(a3, a2), a1), Above(Above(b3, b2), b1), a0, b0);
  }

  function Nat(a: bv16): (n: nat)
    ensures n < 0x1_0000
  {
    a as nat
  }

  function Both(a: bv16, b: bv16): bv16 { a ^ b }

  lemma XorBoth(a: bv16, b: bv16)
    ensures BitXor(Nat(a), Nat(b)) == Nat(Both(a, b))
  {
    hide BitXor;
    XorPair(a, b);
  }

  /** A machine word as four parts, the highest first. */
  datatype Parts = Parts(p3: bv16, p2: bv16, p1: bv16, p0: bv16)

  function Value(p: Parts): nat { FromParts(p.p3 as nat, p.p2 as nat, p.p1 as nat, p.p0 as nat) }

  function Exclusive(a: Parts, b: Parts): nat
  {
    FromParts((a.p3 ^ b.p3) as nat, (a.p2 ^ b.p2) as nat, (a.p1 ^ b.p1) as nat, (a.p0 ^ b.p0) as nat)
  }

  lemma ValueIs(p: Parts)
    ensures Value(p) == FromParts(Nat(p.p3), Nat(p.p2), Nat(p.p1), Nat(p.p0))
  {
    hide FromParts;
  }

  lemma ExclusiveIs(a: Parts, b: Parts)
    ensures Exclusive(a, b)
            == FromParts(Nat(Both(a.p3, b.p3)), Nat(Both(a.p2, b.p2)), Nat(Both(a.p1, b.p1)), Nat(Both(a.p0, b.p0)))
  {
    hide FromParts;
  }

  lemma XorValue(a: Parts, b: Parts)
    ensures BitXor(Value(a), Value(b)) == Exclusive(a, b)
  {
    hide BitXor, FromParts, Nat, Both, Value, Exclusive;
    ValueIs(a);
    ValueIs(b);
    ExclusiveIs(a, b);
    XorBoth(a.p3, b.p3);
    XorBoth(a.p2, b.p2);
    XorBoth(a.p1, b.p1);
    XorBoth(a.p0, b.p0);
    FromPartsXor(Nat(a.p3), Nat(a.p2), Nat(a.p1), Nat(a.p0), Nat(b.p3), Nat(b.p2), Nat(b.p1), Nat(b.p0));
  }

  /** One exclusive or on concrete words. */
  lemma XorIs(a: Parts, b: Parts, x: Word, y: Word, z: Word)
    requires x == Value(a) && y == Value(b) && z == Exclusive(a, b)
    ensures Xor(x, y) == z
  {
    hide BitXor, Value, Exclusive;
    XorValue(a, b);
  }

  lemma XorNothing(x: Word)
    ensures Xor(x, 0) == x
  {
    hide BitXor;
    XorZero(x);
  }

  // ----- rotations -----

  /** A rotation moves the high bits below the low ones. */
  lemma RotlSplit(x: Word, r: nat)
    requires 0 < r < 64
    ensures Rotl(x, r) == Low(x, 64 - r) * Pow2(r) + Shr(x, 64 - r)
    ensures Shr(x, 64 - r) < Pow2(r) && Low(x, 64 - r) < Pow2(64 - r)
  {
    hide Low, Shl, Shr, Pow2, BitOr;
    var n := 64 - r;
    Pow2Wide();
    Pow2Add(r, n);
    Split(x, n);
    LowBound(x, n);
    ShrBound(x, n, r);
    var hi, lo := Shr(x, n), Low(x, n);
    ShlAdd(lo, Shl(hi, n), r);
    ShlShl(hi, n, r);
    ShlIsMul(hi, 64);
    ShlIsMul(lo, r);
    OrAbove(hi, lo + Shl(hi, n), r);
    OrSwap(Shl(x, r), hi);
    JoinBound(hi, lo, r, n);
    Remainder(BitOr(Shl(x, r), hi), hi, lo * Pow2(r) + hi, WORD);
  }

  lemma {:induction false} OrSwap(x: nat, y: nat)
    ensures BitOr(x, y) == BitOr(y, x)
    decreases x + y
  {
    if x > 0 && y > 0 { OrSwap(x / 2, y / 2); }
  }

  lemma RotlInjective(x: Word, y: Word, r: nat)
    requires 0 < r < 64 && Rotl(x, r) == Rotl(y, r)
    ensures x == y
  {
    hide Rotl, Low, Shl, Shr, Pow2;
    RotlSplit(x, r);
    RotlSplit(y, r);
    Remainder(Rotl(x, r), Low(x, 64 - r), Shr(x, 64 - r), Pow2(r));
    Remainder(Rotl(x, r), Low(y, 64 - r), Shr(y, 64 - r), Pow2(r));
    Split(x, 64 - r);
    Split(y, 64 - r);
  }

  // ----- the steps are one to one -----

  /** An odd factor has an inverse. */
  lemma TimesInjective(x: Word, y: Word, p: nat, inverse: nat, k: nat)
    requires p * inverse == 1 + k * WORD && Wrap(x * p) == Wrap(y * p)
    ensures x == y
  {
    var a, b := x * p, y * p;
    assert a - b == (x - y) * p;
    var d := a / WORD - b / WORD;
    SameRest(a, b);
    Cleared(x - y, p, inverse, k, d);
    NoMultiple(x - y, d * inverse - k * (x - y));
  }

  lemma SameRest(a: nat, b: nat)
    requires a % WORD == b % WORD
    ensures a - b == WORD * (a / WORD - b / WORD)
  {}

  lemma Cleared(e: int, p: nat, inverse: nat, k: nat, d: int)
    requires p * inverse == 1 + k * WORD && e * p == WORD * d
    ensures e == WORD * (d * inverse - k * e)
  {
    assert e * (p * inverse) == (e * p) * inverse == WORD * (d * inverse);
    assert e * (1 + k * WORD) == e + WORD * (k * e);
  }

  lemma NoMultiple(e: int, q: int)
    requires e == WORD * q && -WORD < e < WORD
    ensures e == 0
  {}

  const INVERSE_1 := 0x887_4934_32BA_DB37
  const INVERSE_2 := 0xBA7_9078_168D_4BAF
  const INVERSE_3 := 0xE9E9_F4C4_1D6D_F849

  lemma Inverses()
    ensures PRIME64_1 * INVERSE_1 == 1 + 0x545_584C_CD1F_A67A * WORD
    ensures PRIME64_2 * INVERSE_2 == 1 + 0x8DD_1DEC_2186_0607 * WORD
    ensures PRIME64_3 * INVERSE_3 == 1 + 0x1469_0E60_8137_8F7F * WORD
  {}

  lemma PlusInjective(x: Word, y: Word, c: nat)
    requires Wrap(x + c) == Wrap(y + c)
    ensures x == y
  {}

  lemma {:induction false} XorCancel(x: nat, a: nat)
    ensures BitXor(BitXor(x, a), a) == x
    decreases x + a
  {
    hide BitXor;
    if x == 0 && a == 0 {
      XorZero(0);
    } else {
      XorCancel(x / 2, a / 2);
      XorStep(x, a);
      XorStep(BitXor(x, a), a);
    }
  }

  lemma {:induction false} XorSmall(x: nat, y: nat, n: nat)
    requires x < Pow2(n) && y < Pow2(n)
    ensures BitXor(x, y) < Pow2(n)
    decreases n
  {
    hide BitXor;
    if n == 0 {
      XorZero(0);
    } else {
      XorSmall(x / 2, y / 2, n - 1);
      XorStep(x, y);
    }
  }

  lemma XorExact(x: Word, y: Word)
    ensures Xor(x, y) == BitXor(x, y)
  {
    hide BitXor, Pow2;
    Pow2Wide();
    XorSmall(x, y, 64);
  }

  lemma XorInjective(x: Word, y: Word, a: Word)
    requires Xor(x, a) == Xor(y, a)
    ensures x == y
  {
    hide BitXor, Xor;
    XorExact(x, a);
    XorExact(y, a);
    XorCancel(x, a);
    XorCancel(y, a);
  }

  lemma {:induction false} XorSwap(x: nat, y: nat)
    ensures BitXor(x, y) == BitXor(y, x)
    decreases x + y
  {
    if x > 0 && y > 0 { XorSwap(x / 2, y / 2); }
  }

  lemma {:induction false} ShrXor(x: nat, y: nat, n: nat)
    ensures Shr(BitXor(x, y), n) == BitXor(Shr(x, n), Shr(y, n))
    decreases n
  {
    hide BitXor;
    if n > 0 {
      XorStep(x, y);
      ShrXor(x / 2, y / 2, n - 1);
    }
  }

  /** A word and itself shifted down: the bits come back from the top, `k` at a time. */
  lemma {:induction false} ShiftInjective(x: nat, y: nat, k: nat, m: nat)
    requires k > 0 && BitXor(x, Shr(x, k)) == BitXor(y, Shr(y, k)) && Shr(x, m) == Shr(y, m)
    ensures x == y
    decreases m
  {
    hide BitXor, Shr;
    if m == 0 {
      ShiftNone(x);
      ShiftNone(y);
    } else {
      var j := if m < k then 0 else m - k;
      ShrXor(x, Shr(x, k), j);
      ShrXor(y, Shr(y, k), j);
      ShrShr(x, k, j);
      ShrShr(y, k, j);
      ShrShr(x, m, j + k - m);
      ShrShr(y, m, j + k - m);
      XorCancel(Shr(x, j), Shr(x, j + k));
      XorCancel(Shr(y, j), Shr(y, j + k));
      ShiftInjective(x, y, k, j);
    }
  }

  lemma ShrWord(x: Word, k: nat)
    ensures Shr(x, k) < WORD && Wrap(Shr(x, k)) == Shr(x, k) && Shr(x, 64) == 0
  {
    hide Shr, Pow2;
    Pow2Wide();
    Pow2Values();
    Pow2Mono(64, 64 + k);
    ShrBound(x, k, 64);
    ShrBound(x, 64, 0);
  }

  lemma MixInjective(x: Word, y: Word, k: nat)
    requires k > 0 && Xor(x, Wrap(Shr(x, k))) == Xor(y, Wrap(Shr(y, k)))
    ensures x == y
  {
    hide BitXor, Shr, Xor, Wrap;
    ShrWord(x, k);
    ShrWord(y, k);
    XorExact(x, Shr(x, k));
    XorExact(y, Shr(y, k));
    ShiftInjective(x, y, k, 64);
  }

  /** No lane forgets what it had, nor what it is given. */
  lemma RoundInjective(a: Word, b: Word, input: Word, other: Word)
    ensures Round(a, input) == Round(b, input) ==> a == b
    ensures Round(a, input) == Round(a, other) ==> input == other
  {
    hide Rotl, Wrap;
    Inverses();
    var s, t := Wrap(a + input * PRIME64_2), Wrap(b + input * PRIME64_2);
    if Round(a, input) == Round(b, input) {
      TimesInjective(Rotl(s, 31), Rotl(t, 31), PRIME64_1, INVERSE_1, 0x545_584C_CD1F_A67A);
      RotlInjective(s, t, 31);
      PlusInjective(a, b, input * PRIME64_2);
    }
    if Round(a, input) == Round(a, other) {
      var u := Wrap(a + other * PRIME64_2);
      TimesInjective(Rotl(s, 31), Rotl(u, 31), PRIME64_1, INVERSE_1, 0x545_584C_CD1F_A67A);
      RotlInjective(s, u, 31);
      SumWraps(a, input * PRIME64_2);
      SumWraps(a, other * PRIME64_2);
      PlusInjective(Wrap(input * PRIME64_2), Wrap(other * PRIME64_2), a);
      TimesInjective(input, other, PRIME64_2, INVERSE_2, 0x8DD_1DEC_2186_0607);
    }
  }

  lemma SumWraps(a: Word, b: nat)
    ensures Wrap(a + b) == Wrap(Wrap(b) + a)
  {}

  lemma MergeRoundInjective(a: Word, b: Word, val: Word, other: Word)
    ensures MergeRound(a, val) == MergeRound(b, val) ==> a == b
    ensures MergeRound(a, val) == MergeRound(a, other) ==> val == other
  {
    hide Round, Xor, Wrap;
    Inverses();
    if MergeRound(a, val) == MergeRound(b, val) {
      var x, y := Xor(a, Round(0, val)), Xor(b, Round(0, val));
      WrapSum(x * PRIME64_1, PRIME64_4);
      WrapSum(y * PRIME64_1, PRIME64_4);
      PlusInjective(Wrap(x * PRIME64_1), Wrap(y * PRIME64_1), PRIME64_4);
      TimesInjective(x, y, PRIME64_1, INVERSE_1, 0x545_584C_CD1F_A67A);
      XorInjective(a, b, Round(0, val));
    }
    if MergeRound(a, val) == MergeRound(a, other) {
      var x, y := Xor(a, Round(0, val)), Xor(a, Round(0, other));
      WrapSum(x * PRIME64_1, PRIME64_4);
      WrapSum(y * PRIME64_1, PRIME64_4);
      PlusInjective(Wrap(x * PRIME64_1), Wrap(y * PRIME64_1), PRIME64_4);
      TimesInjective(x, y, PRIME64_1, INVERSE_1, 0x545_584C_CD1F_A67A);
      XorWordSwap(a, Round(0, val));
      XorWordSwap(a, Round(0, other));
      XorInjective(Round(0, val), Round(0, other), a);
      RoundInjective(0, 0, val, other);
    }
  }

  lemma WrapSum(x: nat, c: nat)
    ensures Wrap(x + c) == Wrap(Wrap(x) + c)
  {}

  lemma XorWordSwap(x: Word, y: Word)
    ensures Xor(x, y) == Xor(y, x)
  {
    hide BitXor;
    XorSwap(x, y);
  }

  /** The last mixing is one to one, so no two states before it give one hash. */
  lemma AvalancheInjective(x: Word, y: Word)
    requires Avalanche(x) == Avalanche(y)
    ensures x == y
  {
    hide Shr, Xor, Wrap;
    Inverses();
    var x1, y1 := Xor(x, Wrap(Shr(x, 33))), Xor(y, Wrap(Shr(y, 33)));
    var x2, y2 := Wrap(x1 * PRIME64_2), Wrap(y1 * PRIME64_2);
    var x3, y3 := Xor(x2, Wrap(Shr(x2, 29))), Xor(y2, Wrap(Shr(y2, 29)));
    MixInjective(Wrap(x3 * PRIME64_3), Wrap(y3 * PRIME64_3), 32);
    TimesInjective(x3, y3, PRIME64_3, INVERSE_3, 0x1469_0E60_8137_8F7F);
    MixInjective(x2, y2, 29);
    TimesInjective(x1, y1, PRIME64_2, INVERSE_2, 0x8DD_1DEC_2186_0607);
    MixInjective(x, y, 33);
  }

  /** The three kinds of step over the last bytes. */
  lemma StepInjective(x: Word, y: Word, lane: Word, other: Word)
    ensures Stirred(x, lane, 27, PRIME64_1, PRIME64_4) == Stirred(y, other, 27, PRIME64_1, PRIME64_4)
            ==> Xor(x, lane) == Xor(y, other)
    ensures Stirred(x, lane, 23, PRIME64_2, PRIME64_3) == Stirred(y, other, 23, PRIME64_2, PRIME64_3)
            ==> Xor(x, lane) == Xor(y, other)
    ensures Stirred(x, lane, 11, PRIME64_1, 0) == Stirred(y, other, 11, PRIME64_1, 0)
            ==> Xor(x, lane) == Xor(y, other)
  {
    hide Rotl, Xor, Wrap;
    Inverses();
    var u, v := Xor(x, lane), Xor(y, other);
    TurnedInjective(u, v, 27, PRIME64_1, INVERSE_1, 0x545_584C_CD1F_A67A, PRIME64_4);
    TurnedInjective(u, v, 23, PRIME64_2, INVERSE_2, 0x8DD_1DEC_2186_0607, PRIME64_3);
    TurnedInjective(u, v, 11, PRIME64_1, INVERSE_1, 0x545_584C_CD1F_A67A, 0);
  }

  function Stirred(x: Word, lane: Word, r: nat, p: nat, c: nat): Word
    requires r < 64
  {
    Wrap(Rotl(Xor(x, lane), r) * p + c)
  }

  lemma TurnedInjective(u: Word, v: Word, r: nat, p: nat, inverse: nat, k: nat, c: nat)
    requires 0 < r < 64 && p * inverse == 1 + k * WORD
    ensures Wrap(Rotl(u, r) * p + c) == Wrap(Rotl(v, r) * p + c) ==> u == v
  {
    hide Rotl, Wrap;
    if Wrap(Rotl(u, r) * p + c) == Wrap(Rotl(v, r) * p + c) {
      WrapSum(Rotl(u, r) * p, c);
      WrapSum(Rotl(v, r) * p, c);
      PlusInjective(Wrap(Rotl(u, r) * p), Wrap(Rotl(v, r) * p), c);
      TimesInjective(Rotl(u, r), Rotl(v, r), p, inverse, k);
      RotlInjective(u, v, r);
    }
  }

  /** The last bytes do not make two states one. */
  lemma {:induction false} TailInjective(x: Word, y: Word, rest: seq<Byte>)
    requires Tail(x, rest) == Tail(y, rest)
    ensures x == y
    decreases |rest|
  {
    hide Rotl, Xor, Wrap, Round, LeNat;
    if |rest| >= 8 {
      var lane := Round(0, LeNat(rest[..8]));
      TailInjective(Wrap(Rotl(Xor(x, lane), 27) * PRIME64_1 + PRIME64_4),
                    Wrap(Rotl(Xor(y, lane), 27) * PRIME64_1 + PRIME64_4), rest[8..]);
      StepInjective(x, y, lane, lane);
      XorInjective(x, y, lane);
    } else if |rest| >= 4 {
      var lane := Wrap(LeNat(rest[..4]) * PRIME64_1);
      TailInjective(Wrap(Rotl(Xor(x, lane), 23) * PRIME64_2 + PRIME64_3),
                    Wrap(Rotl(Xor(y, lane), 23) * PRIME64_2 + PRIME64_3), rest[4..]);
      StepInjective(x, y, lane, lane);
      XorInjective(x, y, lane);
    } else if |rest| > 0 {
      var lane := Wrap(rest[0] * PRIME64_5);
      TailInjective(Wrap(Rotl(Xor(x, lane), 11) * PRIME64_1), Wrap(Rotl(Xor(y, lane), 11) * PRIME64_1), rest[1..]);
      StepInjective(x, y, lane, lane);
      XorInjective(x, y, lane);
    }
  }

  /** Two seeds never give a short input one hash. */
  lemma SeedsApart(s: Word, t: Word, data: seq<Byte>)
    requires |data| < 32 && Hash(s, data) == Hash(t, data)
    ensures s == t
  {
    hide Tail, Wrap, Avalanche;
    var x, y := Wrap(s + PRIME64_5), Wrap(t + PRIME64_5);
    assert data[0..] == data;
    AvalancheInjective(Tail(Wrap(x + |data|), data), Tail(Wrap(y + |data|), data));
    TailInjective(Wrap(x + |data|), Wrap(y + |data|), data);
    PlusInjective(x, y, |data|);
    PlusInjective(s, t, PRIME64_5);
  }

  /** No two inputs of eight bytes have one hash. */
  lemma EightApart(seed: Word, a: seq<Byte>, b: seq<Byte>)
    requires |a| == |b| == 8 && Hash(seed, a) == Hash(seed, b)
    ensures a == b
  {
    hide Rotl, Xor, Wrap, Avalanche, Tail, Round, LeNat;
    var h := Wrap(Wrap(seed + PRIME64_5) + 8);
    assert a[0..] == a && b[0..] == b;
    AvalancheInjective(Tail(h, a), Tail(h, b));
    OneStep(h, a);
    OneStep(h, b);
    var s, t := Round(0, LeNat(a)), Round(0, LeNat(b));
    StepInjective(h, h, s, t);
    XorWordSwap(h, s);
    XorWordSwap(h, t);
    XorInjective(s, t, h);
    WordOfEight(a);
    WordOfEight(b);
    RoundInjective(0, 0, LeNat(a), LeNat(b));
    LeNatInjective(a, b);
  }

  lemma OneStep(h: Word, a: seq<Byte>)
    requires |a| == 8
    ensures Tail(h, a) == Wrap(Rotl(Xor(h, Round(0, LeNat(a))), 27) * PRIME64_1 + PRIME64_4)
  {
    hide Rotl, Xor, Wrap, Round, LeNat;
    assert a[..8] == a;
  }

  lemma WordOfEight(a: seq<Byte>)
    requires |a| == 8
    ensures LeNat(a) < WORD
  {
    hide LeNat, Pow2;
    Pow2Wide();
    LeNatBound(a);
  }

  lemma {:induction false} LeNatInjective(a: seq<Byte>, b: seq<Byte>)
    requires |a| == |b| && LeNat(a) == LeNat(b)
    ensures a == b
    decreases |a|
  {
    if |a| > 0 {
      LeNatInjective(a[1..], b[1..]);
      assert a == [a[0]] + a[1..] && b == [b[0]] + b[1..];
    }
  }

  // ----- known hashes -----

  /** A rotation as arithmetic. */
  function Turn(x: Word, p: nat, q: nat): nat
    requires q > 0
  {
    x % q * p + x / q
  }

  lemma TurnIs(x: Word, r: nat, p: nat, q: nat)
    requires 0 < r < 64 && p == Pow2(r) && q == Pow2(64 - r)
    ensures Turn(x, p, q) == Rotl(x, r)
  {
    hide Rotl, Low, Shr, Pow2;
    RotlSplit(x, r);
    LowIsMod(x, 64 - r);
    ShrIsDiv(x, 64 - r);
  }

  lemma LaneTurns(x: Word)
    ensures Rotl(x, 1) == Turn(x, 2, 0x8000_0000_0000_0000) && Rotl(x, 7) == Turn(x, 0x80, 0x200_0000_0000_0000)
    ensures Rotl(x, 12) == Turn(x, 0x1000, 0x10_0000_0000_0000) && Rotl(x, 18) == Turn(x, 0x4_0000, 0x4000_0000_0000)
  {
    hide Rotl, Turn, Pow2;
    Pow2Values();
    Pow2Wide();
    Pow2Add(16, 2);
    Pow2Add(16, 30);
    Pow2Add(46, 6);
    Pow2Add(46, 11);
    Pow2Add(62, 1);
    TurnIs(x, 1, 2, 0x8000_0000_0000_0000);
    TurnIs(x, 7, 0x80, 0x200_0000_0000_0000);
    TurnIs(x, 12, 0x1000, 0x10_0000_0000_0000);
    TurnIs(x, 18, 0x4_0000, 0x4000_0000_0000);
  }

  lemma StepTurns(x: Word)
    ensures Rotl(x, 31) == Turn(x, 0x8000_0000, 0x2_0000_0000) && Rotl(x, 27) == Turn(x, 0x800_0000, 0x20_0000_0000)
    ensures Rotl(x, 23) == Turn(x, 0x80_0000, 0x200_0000_0000) && Rotl(x, 11) == Turn(x, 0x800, 0x20_0000_0000_0000)
  {
    hide Rotl, Turn, Pow2;
    Pow2Values();
    Pow2Wide();
    Pow2Add(16, 5);
    Pow2Add(16, 7);
    Pow2Add(16, 11);
    Pow2Add(32, 1);
    Pow2Add(32, 5);
    Pow2Add(32, 9);
    Pow2Add(32, 21);
    TurnIs(x, 31, 0x8000_0000, 0x2_0000_0000);
    TurnIs(x, 27, 0x800_0000, 0x20_0000_0000);
    TurnIs(x, 23, 0x80_0000, 0x200_0000_0000);
    TurnIs(x, 11, 0x800, 0x20_0000_0000_0000);
  }

  /** One round on concrete words. */
  lemma RoundIs(acc: Word, input: nat, sum: Word, out: Word)
    requires sum == (acc + input * PRIME64_2) % WORD
    requires out == Turn(sum, 0x8000_0000, 0x2_0000_0000) * PRIME64_1 % WORD
    ensures Round(acc, input) == out
  {
    hide Rotl, Turn;
    StepTurns(sum);
  }

  lemma MergeIs(acc: Word, val: Word, sum: Word, lane: Word, mixed: Word, out: Word)
    requires sum == val * PRIME64_2 % WORD
    requires lane == Turn(sum, 0x8000_0000, 0x2_0000_0000) * PRIME64_1 % WORD
    requires Xor(acc, lane) == mixed && out == (mixed * PRIME64_1 + PRIME64_4) % WORD
    ensures MergeRound(acc, val) == out
  {
    hide Xor, Turn, Round;
    RoundIs(0, val, sum, lane);
  }

  lemma ConvergeIs(v: Lanes, h: Word, h1: Word, h2: Word, h3: Word, h4: Word)
    requires h == (Turn(v.v1, 2, 0x8000_0000_0000_0000) + Turn(v.v2, 0x80, 0x200_0000_0000_0000)
                   + Turn(v.v3, 0x1000, 0x10_0000_0000_0000) + Turn(v.v4, 0x4_0000, 0x4000_0000_0000)) % WORD
    requires MergeRound(h, v.v1) == h1 && MergeRound(h1, v.v2) == h2 && MergeRound(h2, v.v3) == h3
    requires MergeRound(h3, v.v4) == h4
    ensures Converge(v) == h4
  {
    hide Rotl, Turn, MergeRound;
    LaneTurns(v.v1);
    LaneTurns(v.v2);
    LaneTurns(v.v3);
    LaneTurns(v.v4);
  }

  /** Eight of the last bytes on concrete words. */
  lemma EightIs(hash: Word, eight: seq<Byte>, rest: seq<Byte>, word: nat, sum: Word, lane: Word, mixed: Word, out: Word)
    requires |eight| == 8 && LeNat(eight) == word && sum == word * PRIME64_2 % WORD
    requires lane == Turn(sum, 0x8000_0000, 0x2_0000_0000) * PRIME64_1 % WORD && Xor(hash, lane) == mixed
    requires out == (Turn(mixed, 0x800_0000, 0x20_0000_0000) * PRIME64_1 + PRIME64_4) % WORD
    ensures Tail(hash, eight + rest) == Tail(out, rest)
  {
    hide Xor, Turn, Rotl, Round, LeNat;
    StepTurns(mixed);
    RoundIs(0, word, sum, lane);
    assert (eight + rest)[..8] == eight && (eight + rest)[8..] == rest;
  }

  lemma FourIs(hash: Word, four: seq<Byte>, rest: seq<Byte>, word: nat, lane: Word, mixed: Word, out: Word)
    requires |four| == 4 && |rest| < 4 && LeNat(four) == word && lane == word * PRIME64_1 % WORD
    requires Xor(hash, lane) == mixed
    requires out == (Turn(mixed, 0x80_0000, 0x200_0000_0000) * PRIME64_2 + PRIME64_3) % WORD
    ensures Tail(hash, four + rest) == Tail(out, rest)
  {
    hide Xor, Turn, Rotl, LeNat;
    StepTurns(mixed);
    assert (four + rest)[..4] == four && (four + rest)[4..] == rest;
  }

  lemma OneIs(hash: Word, one: Byte, rest: seq<Byte>, lane: Word, mixed: Word, out: Word)
    requires |rest| < 3 && lane == one * PRIME64_5 % WORD && Xor(hash, lane) == mixed
    requires out == Turn(mixed, 0x800, 0x20_0000_0000_0000) * PRIME64_1 % WORD
    ensures Tail(hash, [one] + rest) == Tail(out, rest)
  {
    hide Xor, Turn, Rotl;
    StepTurns(mixed);
    assert ([one] + rest)[1..] == rest;
  }

  lemma ShiftsOf(h: Word)
    ensures Wrap(Shr(h, 33)) == h / 0x2_0000_0000 && Wrap(Shr(h, 29)) == h / 0x2000_0000 && Wrap(Shr(h, 32)) == h / 0x1_0000_0000
  {
    hide Shr, Pow2;
    Pow2Wide();
    Pow2Next(32);
    Pow2Add(24, 5);
    Pow2Values();
    ShrIsDiv(h, 33);
    ShrIsDiv(h, 29);
    ShrIsDiv(h, 32);
  }

  /** The last mixing on concrete words. */
  lemma AvalancheIs(h: Word, x: Word, a: Word, y: Word, b: Word, out: Word)
    requires Xor(h, h / 0x2_0000_0000) == x && a == (x * PRIME64_2) % WORD
    requires Xor(a, a / 0x2000_0000) == y && b == (y * PRIME64_3) % WORD
    requires Xor(b, b / 0x1_0000_0000) == out
    ensures Avalanche(h) == out
  {
    hide Shr, Xor;
    ShiftsOf(h);
    ShiftsOf(a);
    ShiftsOf(b);
  }

  /** A block and what follows it. */
  lemma BlockHash(seed: Word, block: seq<Byte>, rest: seq<Byte>)
    requires |block| == 32 && |rest| < 32
    ensures Hash(seed, block + rest)
            == Avalanche(Tail(Wrap(Converge(Stripe(InitialLanes(seed), block)) + 32 + |rest|), rest))
  {
    hide Tail, Wrap, Avalanche, Converge, Consume, InitialLanes, Stripe;
    BlockThenRest(InitialLanes(seed), block, rest);
    assert (block + rest)[32..] == rest && |block + rest| == 32 + |rest|;
  }

  lemma BlockOfFour(v: Lanes, a: seq<Byte>, b: seq<Byte>, c: seq<Byte>, d: seq<Byte>)
    requires |a| == |b| == |c| == |d| == 8
    ensures Stripe(v, a + b + c + d)
            == Lanes(Round(v.v1, LeNat(a)), Round(v.v2, LeNat(b)), Round(v.v3, LeNat(c)), Round(v.v4, LeNat(d)))
  {
    hide Round, LeNat;
    var block := a + b + c + d;
    assert block[0..8] == a && block[8..16] == b && block[16..24] == c && block[24..32] == d;
  }

  lemma BlockThenRest(v: Lanes, block: seq<Byte>, rest: seq<Byte>)
    requires |block| == 32 && |rest| < 32
    ensures Consume(v, block + rest) == Stripe(v, block)
  {
    hide Stripe;
    assert (block + rest)[..32] == block && (block + rest)[32..] == rest;
  }

  /** Too few bytes for a block. */
  lemma ShortHash(seed: Word, rest: seq<Byte>)
    requires |rest| < 32
    ensures Hash(seed, rest) == Avalanche(Tail(Wrap(Wrap(seed + PRIME64_5) + |rest|), rest))
  {
    hide Tail, Wrap, Avalanche;
    assert rest[0..] == rest;
  }

  lemma EightBytes(a: Byte, b: Byte, c: Byte, d: Byte, e: Byte, f: Byte, g: Byte, h: Byte)
    ensures LeNat([a, b, c, d, e, f, g, h])
            == (a + 0x100 * b + 0x1_0000 * c + 0x100_0000 * d)
            + 0x1_0000_0000 * (e + 0x100 * f + 0x1_0000 * g + 0x100_0000 * h)
  {
    hide LeNat, Shl, Pow2;
    Pow2Wide();
    FourBytes(a, b, c, d);
    FourBytes(e, f, g, h);
    LeNatAppend([a, b, c, d], [e, f, g, h]);
    ShlIsMul(LeNat([e, f, g, h]), 32);
    assert [a, b, c, d] + [e, f, g, h] == [a, b, c, d, e, f, g, h];
  }
}
