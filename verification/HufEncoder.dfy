/** `HUF_compress1X_usingCTable`: the unrolled loops over one Huffman bit stream. */
module HufEncoder {
  import opened Bits
  import opened BitStream
  import opened Kraft
  import opened HufCodes
  import opened HufStream

  /** A code table as the encoder sees it. */
  datatype Table = Table(nb: seq<nat>, vals: seq<nat>, tableLog: nat) {
    ghost predicate Ok(elts: seq<nat>)
    {
      && tableLog <= HUF_TABLELOG_MAX && IsTable(elts, nb, vals)
      && forall s :: 0 <= s < |nb| ==> nb[s] <= tableLog
    }
  }

  /** A group of `k` symbols fits a register that holds up to 7 bits: `d` bits stay
      free below every symbol added fast. */
  ghost predicate Fits(k: nat, tableLog: nat, lastFast: bool, d: nat)
  {
    && 1 <= k && 7 + (k - 1) * tableLog + d <= 64 && 7 + k * tableLog < 64
    && (lastFast ==> 7 + k * tableLog + d <= 64) && tableLog < Pow2(d)
  }

  lemma Grow(i: nat, k: nat, tableLog: nat)
    requires i < k
    ensures (i + 1) * tableLog == i * tableLog + tableLog
    ensures i * tableLog <= (k - 1) * tableLog && (i + 1) * tableLog <= k * tableLog
  {
    MulMono(i, k - 1, tableLog);
    MulMono(i + 1, k, tableLog);
  }

  lemma SymbolFacts(src: seq<nat>, i: nat, t: Table, elts: seq<nat>, d: nat)
    requires Codable(src, t.nb, t.vals) && t.Ok(elts) && i < |src| && t.tableLog < Pow2(d)
    ensures HasWord(src[i], t.nb, t.vals) && src[i] < |elts|
    ensures elts[src[i]] == Elt(t.vals[src[i]], t.nb[src[i]]) && t.nb[src[i]] <= t.tableLog
    ensures t.nb[src[i]] < Pow2(d)
  {}

  /** `HUF_encodeSymbol` of `src[i]`, into container `idx`. */
  method EncodeSymbol(bitC: HufCStream, src: seq<nat>, i: nat, ct: seq<nat>, idx: nat, fast: bool,
                      ghost t: Table, ghost d: nat)
    requires bitC.Valid() && idx < 2 && Codable(src, t.nb, t.vals) && t.Ok(ct) && i < |src| && t.tableLog < Pow2(d)
    requires var len := if idx == 0 then bitC.Pending() else bitC.side.len;
             len + t.tableLog < 64 && (fast ==> len + t.tableLog + d <= 64)
    modifies bitC
    ensures bitC.Valid()
    ensures HasWord(src[i], t.nb, t.vals) && t.nb[src[i]] <= t.tableLog
    ensures idx == 0 ==> bitC.stack == old(bitC.stack).Push(t.vals[src[i]], t.nb[src[i]])
    ensures idx == 0 ==> bitC.Pending() == old(bitC.Pending()) + t.nb[src[i]]
    ensures idx == 1 ==> bitC.side == old(bitC.side).Push(t.vals[src[i]], t.nb[src[i]])
    ensures idx == 1 ==> bitC.stack == old(bitC.stack) && bitC.Pending() == old(bitC.Pending())
    ensures var dirty, nb, e := old(bitC.dirty), t.nb[src[i]], if fast then d else 0;
            idx == 1 ==> bitC.dirty == Max(e, if dirty < nb then 0 else dirty - nb)
  {
    hide Pow2, Elt;
    SymbolFacts(src, i, t, ct, d);
    bitC.AddBits(ct[src[i]], idx, fast, t.vals[src[i]], t.nb[src[i]], d);
  }

  lemma EncodeNext(base: Stack, src: seq<nat>, lo: nat, hi: nat, nb: seq<nat>, vals: seq<nat>)
    requires base.Ok() && lo < hi <= |src| && Codable(src, nb, vals)
    ensures HasWord(src[lo], nb, vals)
    ensures EncodeOn(base, src, lo, hi, nb, vals) == EncodeOn(base, src, lo + 1, hi, nb, vals).Push(vals[src[lo]], nb[src[lo]])
  {
    assert HasWord(src[lo], nb, vals);
  }

  /** Encodes the `kUnroll` symbols before position `n`, all but the last one fast,
      into the first container. */
  method EncodeFirst(bitC: HufCStream, src: seq<nat>, n: nat, ct: seq<nat>, kUnroll: nat, kLastFast: bool,
                     ghost t: Table, ghost d: nat)
    requires bitC.Valid() && bitC.Pending() < 8 && Codable(src, t.nb, t.vals) && t.Ok(ct)
    requires Fits(kUnroll, t.tableLog, kLastFast, d) && kUnroll <= n <= |src|
    modifies bitC
    ensures bitC.Valid() && 0 < bitC.Pending()
    ensures bitC.stack == EncodeOn(old(bitC.stack), src, n - kUnroll, n, t.nb, t.vals)
  {
    hide Pow2, Elt, Codable, EncodeOn;
    ghost var base, len := bitC.stack, bitC.Pending();
    EncodeNone(base, src, n, t.nb, t.vals);
    var u := 1;
    while u < kUnroll
      invariant 1 <= u <= kUnroll && bitC.Valid()
      invariant bitC.stack == EncodeOn(base, src, n - u + 1, n, t.nb, t.vals)
      invariant bitC.Pending() <= 7 + (u - 1) * t.tableLog
    {
      Grow(u - 1, kUnroll - 1, t.tableLog);
      EncodeNext(base, src, n - u, n, t.nb, t.vals);
      EncodeSymbol(bitC, src, n - u, ct, 0, true, t, d);
      u := u + 1;
    }
    Grow(kUnroll - 1, kUnroll, t.tableLog);
    EncodeNext(base, src, n - kUnroll, n, t.nb, t.vals);
    EncodeSymbol(bitC, src, n - kUnroll, ct, 0, kLastFast, t, d);
  }

  lemma EncodeNone(base: Stack, src: seq<nat>, n: nat, nb: seq<nat>, vals: seq<nat>)
    requires base.Ok() && n <= |src| && Codable(src, nb, vals)
    ensures EncodeOn(base, src, n, n, nb, vals) == base
  {}

  /** The same into the second container, cleared before. */
  method EncodeSecond(bitC: HufCStream, src: seq<nat>, n: nat, ct: seq<nat>, kUnroll: nat, kLastFast: bool,
                      ghost t: Table, ghost d: nat)
    requires bitC.Valid() && bitC.side == Empty && bitC.dirty == 0 && Codable(src, t.nb, t.vals) && t.Ok(ct)
    requires Fits(kUnroll, t.tableLog, kLastFast, d) && kUnroll <= n <= |src|
    modifies bitC
    ensures bitC.Valid() && bitC.stack == old(bitC.stack) && bitC.Pending() == old(bitC.Pending())
    ensures bitC.side == EncodeOn(Empty, src, n - kUnroll, n, t.nb, t.vals)
    ensures 0 < bitC.side.len && 7 + bitC.side.len < 64 && 7 + bitC.side.len + bitC.dirty <= 64
  {
    hide Pow2, Elt, Codable, EncodeOn;
    EncodeNone(Empty, src, n, t.nb, t.vals);
    var u := 1;
    while u < kUnroll
      invariant 1 <= u <= kUnroll && bitC.Valid()
      invariant bitC.stack == old(bitC.stack) && bitC.Pending() == old(bitC.Pending())
      invariant bitC.side == EncodeOn(Empty, src, n - u + 1, n, t.nb, t.vals)
      invariant bitC.side.len <= (u - 1) * t.tableLog && bitC.dirty <= d
    {
      Grow(u - 1, kUnroll - 1, t.tableLog);
      EncodeNext(Empty, src, n - u, n, t.nb, t.vals);
      EncodeSymbol(bitC, src, n - u, ct, 1, true, t, d);
      u := u + 1;
    }
    Grow(kUnroll - 1, kUnroll, t.tableLog);
    EncodeNext(Empty, src, n - kUnroll, n, t.nb, t.vals);
    EncodeSymbol(bitC, src, n - kUnroll, ct, 1, kLastFast, t, d);
  }

  /** The first `|src| - n` symbols from the end take at most this many bits. */
  lemma SoFar(src: seq<nat>, n: nat, t: Table, elts: seq<nat>, endPtr: nat)
    requires Codable(src, t.nb, t.vals) && t.Ok(elts) && n <= |src| && |src| * t.tableLog / 8 <= endPtr
    ensures EncodeOn(Empty, src, n, |src|, t.nb, t.vals).len / 8 <= endPtr
  {
    EncodeLength(Empty, src, n, |src|, t.nb, t.vals, t.tableLog);
    MulMono(|src| - n, |src|, t.tableLog);
  }

  /** What holds between groups, with the symbols from `n` on encoded. */
  ghost predicate Between(bitC: HufCStream, src: seq<nat>, n: nat, t: Table, elts: seq<nat>, fastFlush: bool)
    reads bitC, bitC.dst
  {
    && n <= |src| && Codable(src, t.nb, t.vals) && t.Ok(elts)
    && bitC.Valid() && bitC.Pending() < 8 && bitC.stack == EncodeOn(Empty, src, n, |src|, t.nb, t.vals)
    && (fastFlush ==> |src| * t.tableLog / 8 <= bitC.endPtr)
  }

  /** The symbols that do not fill a group, and the flush after them. */
  method Remainder(bitC: HufCStream, src: seq<nat>, rem: nat, ct: seq<nat>, kUnroll: nat, kFastFlush: bool,
                   ghost t: Table, ghost lastFast: bool, ghost d: nat)
    requires Between(bitC, src, |src|, t, ct, kFastFlush) && Fits(kUnroll, t.tableLog, lastFast, d)
    requires 0 < rem < kUnroll && rem <= |src|
    modifies bitC, bitC.dst
    ensures Between(bitC, src, |src| - rem, t, ct, kFastFlush)
  {
    hide Pow2, Elt, Codable, EncodeOn, Table.Ok;
    EncodeNone(Empty, src, |src|, t.nb, t.vals);
    var left := rem;
    while left > 0
      invariant 0 <= left <= rem && bitC.Valid()
      invariant bitC.stack == EncodeOn(Empty, src, |src| - (rem - left), |src|, t.nb, t.vals)
      invariant bitC.Pending() <= 7 + (rem - left) * t.tableLog && (left < rem ==> bitC.Pending() > 0)
    {
      Grow(rem - left, kUnroll - 1, t.tableLog);
      EncodeNext(Empty, src, |src| - (rem - left) - 1, |src|, t.nb, t.vals);
      EncodeSymbol(bitC, src, |src| - (rem - left) - 1, ct, 0, false, t, d);
      left := left - 1;
    }
    if kFastFlush { SoFar(src, |src| - rem, t, ct, bitC.endPtr); }
    bitC.FlushBits(kFastFlush);
  }

  /** One group through the first container. */
  method OneGroup(bitC: HufCStream, src: seq<nat>, n: nat, ct: seq<nat>, kUnroll: nat, kFastFlush: bool, kLastFast: bool,
                  ghost t: Table, ghost d: nat)
    requires Between(bitC, src, n, t, ct, kFastFlush) && Fits(kUnroll, t.tableLog, kLastFast, d) && kUnroll <= n
    modifies bitC, bitC.dst
    ensures Between(bitC, src, n - kUnroll, t, ct, kFastFlush)
  {
    hide Pow2, Elt, Codable, EncodeOn, Table.Ok, Fits;
    EncodeFirst(bitC, src, n, ct, kUnroll, kLastFast, t, d);
    EncodeSplit(Empty, src, n - kUnroll, n, |src|, t.nb, t.vals);
    ghost var e := bitC.endPtr;
    assert kFastFlush ==> EncodeOn(Empty, src, n - kUnroll, |src|, t.nb, t.vals).len / 8 <= e by {
      if kFastFlush { SoFar(src, n - kUnroll, t, ct, e); }
    }
    bitC.FlushBits(kFastFlush);
  }

  /** One group through the second container, merged into the first. */
  method SideGroup(bitC: HufCStream, src: seq<nat>, n: nat, ct: seq<nat>, kUnroll: nat, kFastFlush: bool, kLastFast: bool,
                   ghost t: Table, ghost d: nat)
    requires Between(bitC, src, n, t, ct, kFastFlush) && Fits(kUnroll, t.tableLog, kLastFast, d) && kUnroll <= n
    modifies bitC, bitC.dst
    ensures Between(bitC, src, n - kUnroll, t, ct, kFastFlush)
  {
    hide Pow2, Elt, Codable, EncodeOn, Table.Ok, Fits;
    bitC.ZeroIndex1();
    EncodeSecond(bitC, src, n, ct, kUnroll, kLastFast, t, d);
    EncodeApart(bitC.stack, src, n - kUnroll, n, t.nb, t.vals);
    EncodeSplit(Empty, src, n - kUnroll, n, |src|, t.nb, t.vals);
    bitC.MergeIndex1();
    ghost var e := bitC.endPtr;
    assert kFastFlush ==> EncodeOn(Empty, src, n - kUnroll, |src|, t.nb, t.vals).len / 8 <= e by {
      if kFastFlush { SoFar(src, n - kUnroll, t, ct, e); }
    }
    bitC.FlushBits(kFastFlush);
  }

  // ----- whole groups -----

  /** `n` is a multiple of `k`. */
  ghost predicate Whole(n: nat, k: nat)
  {
    exists g: nat :: n == g * k
  }

  lemma DropRemainder(n: nat, k: nat)
    requires k > 0
    ensures n % k <= n && Whole(n - n % k, k)
  {
    var g := n / k;
    assert n == g * k + n % k;
  }

  lemma OddGroup(n: nat, k: nat)
    requires k > 0 && Whole(n, k)
    ensures n % (2 * k) != 0 ==> n >= k && Whole(n - k, 2 * k)
    ensures n % (2 * k) == 0 ==> Whole(n, 2 * k)
  {
    var g: nat :| n == g * k;
    var h := g / 2;
    if g % 2 == 0 {
      assert n == h * (2 * k) by { assert g == 2 * h; }
      MultipleMod(h, 2 * k);
    } else {
      assert n == h * (2 * k) + k by { assert g == 2 * h + 1; }
    }
    if n % (2 * k) == 0 {
      var q := n / (2 * k);
      assert n == q * (2 * k);
    }
  }

  lemma MultipleMod(h: nat, m: nat)
    requires m > 0
    ensures h * m % m == 0
  {
    ModUnique(h * m, h, m);
  }

  lemma ModUnique(x: nat, q: nat, m: nat)
    requires m > 0 && x == q * m
    ensures x % m == 0
  {
    var p, r := x / m, x % m;
    assert x == p * m + r;
    assert (q - p) * m == r;
    if q > p { MulMono(1, q - p, m); }
    if q < p { MulMono(1, p - q, m); }
  }

  lemma NextPair(n: nat, m: nat)
    requires m > 0 && n > 0 && Whole(n, m)
    ensures n >= m && Whole(n - m, m)
  {
    var g: nat :| n == g * m;
    assert g > 0;
    MulMono(1, g, m);
    assert n - m == (g - 1) * m;
  }

  /** `HUF_compress1X_usingCTable_internal_body_loop`. */
  method CompressLoop(bitC: HufCStream, src: seq<nat>, ct: seq<nat>, kUnroll: nat, kFastFlush: bool, kLastFast: bool,
                      ghost t: Table, ghost d: nat)
    requires Between(bitC, src, |src|, t, ct, kFastFlush) && Fits(kUnroll, t.tableLog, kLastFast, d)
    modifies bitC, bitC.dst
    ensures Between(bitC, src, 0, t, ct, kFastFlush)
  {
    hide Between, Fits, Whole;
    GroupNotEmpty(kUnroll, t.tableLog, kLastFast, d);
    DropRemainder(|src|, kUnroll);
    var n := |src|;
    var rem := n % kUnroll;
    if rem > 0 {
      Remainder(bitC, src, rem, ct, kUnroll, kFastFlush, t, kLastFast, d);
      n := n - rem;
    }
    OddGroup(n, kUnroll);
    if n % (2 * kUnroll) != 0 {
      OneGroup(bitC, src, n, ct, kUnroll, kFastFlush, kLastFast, t, d);
      n := n - kUnroll;
    }
    while n > 0
      invariant 0 <= n <= |src| && Whole(n, 2 * kUnroll) && Between(bitC, src, n, t, ct, kFastFlush)
      decreases n
    {
      NextPair(n, 2 * kUnroll);
      OneGroup(bitC, src, n, ct, kUnroll, kFastFlush, kLastFast, t, d);
      SideGroup(bitC, src, n - kUnroll, ct, kUnroll, kFastFlush, kLastFast, t, d);
      n := n - 2 * kUnroll;
    }
  }

  lemma GroupNotEmpty(k: nat, tableLog: nat, lastFast: bool, d: nat)
    requires Fits(k, tableLog, lastFast, d)
    ensures k > 0
  {}

  /** `HUF_tightCompressBound`. */
  function TightCompressBound(srcSize: nat, tableLog: nat): nat
  {
    srcSize * tableLog / 8 + 8
  }

  /** Every variant that `HUF_compress1X_usingCTable` chooses fits the register. */
  lemma Variants(tableLog: nat)
    requires tableLog <= HUF_TABLELOG_MAX
    ensures Fits(4, tableLog, false, 4)
    ensures tableLog == 11 ==> Fits(5, tableLog, false, 4)
    ensures tableLog == 10 ==> Fits(5, tableLog, true, 4)
    ensures tableLog == 9 ==> Fits(6, tableLog, false, 4)
    ensures tableLog == 8 ==> Fits(7, tableLog, false, 4)
    ensures tableLog == 7 ==> Fits(8, tableLog, false, 4)
    ensures tableLog <= 6 ==> Fits(9, tableLog, true, 3)
  {
    Pow2Values();
  }

  /** `HUF_compress1X_usingCTable`: the sealed one-symbol-at-a-time encoding, or 0
      exactly when its whole bytes would reach the last eight bytes of `dst`. */
  method Compress1X(dst: array<Byte>, src: seq<nat>, ct: seq<nat>, tableLog: nat, ghost t: Table) returns (size: nat)
    requires Codable(src, t.nb, t.vals) && t.Ok(ct) && t.tableLog == tableLog
    modifies dst
    ensures size > 0 <==> dst.Length > 8 && (Encoded(src, t.nb, t.vals).len + 1) / 8 < dst.Length - 8
    ensures size > 0 ==> size <= dst.Length && Sealed(dst[..size], Encoded(src, t.nb, t.vals))
  {
    hide Between, Fits, EncodeOn, Sealed;
    if dst.Length < 8 { return 0; }
    if dst.Length <= 8 { return 0; }
    var bitC := new HufCStream(dst);
    Variants(tableLog);
    if dst.Length < TightCompressBound(|src|, tableLog) || tableLog > 11 {
      BeforeLoop(bitC, src, t, ct, false);
      CompressLoop(bitC, src, ct, 4, false, false, t, 4);
      AfterLoop(bitC, src, t, ct, false);
    } else {
      BeforeLoop(bitC, src, t, ct, true);
      match tableLog {
        case 11 => CompressLoop(bitC, src, ct, 5, true, false, t, 4);
        case 10 => CompressLoop(bitC, src, ct, 5, true, true, t, 4);
        case 9 => CompressLoop(bitC, src, ct, 6, true, false, t, 4);
        case 8 => CompressLoop(bitC, src, ct, 7, true, false, t, 4);
        case 7 => CompressLoop(bitC, src, ct, 8, true, false, t, 4);
        case _ => CompressLoop(bitC, src, ct, 9, true, true, t, 3);
      }
      AfterLoop(bitC, src, t, ct, true);
    }
    size := bitC.CloseCStream();
  }

  lemma BeforeLoop(bitC: HufCStream, src: seq<nat>, t: Table, elts: seq<nat>, fast: bool)
    requires Codable(src, t.nb, t.vals) && t.Ok(elts)
    requires bitC.Valid() && bitC.Pending() == 0 && bitC.stack == Empty
    requires fast ==> bitC.dst.Length >= TightCompressBound(|src|, t.tableLog)
    ensures Between(bitC, src, |src|, t, elts, fast)
  {
    EncodeNone(Empty, src, |src|, t.nb, t.vals);
  }

  lemma AfterLoop(bitC: HufCStream, src: seq<nat>, t: Table, elts: seq<nat>, fast: bool)
    requires Between(bitC, src, 0, t, elts, fast)
    ensures bitC.Valid() && bitC.Pending() < 8 && bitC.stack == Encoded(src, t.nb, t.vals)
  {}

  /** A non-zero size is a stream that a prefix-code reader turns back into `src`. */
  lemma StreamRoundTrip(bytes: seq<Byte>, src: seq<nat>, t: Table)
    requires Codable(src, t.nb, t.vals) && Canonical(t.nb, t.tableLog, t.vals)
    requires Sealed(bytes, Encoded(src, t.nb, t.vals))
    ensures |bytes| > 0 && bytes[|bytes| - 1] > 0
    ensures Decoded(Opened(bytes), t.nb, t.vals) == src
  {
    hide Sealed, Canonical, Codable, EncodeOn;
    OpenSealed(bytes, Encoded(src, t.nb, t.vals));
    RoundTrip(src, 0, t.nb, t.vals, t.tableLog);
  }
}
