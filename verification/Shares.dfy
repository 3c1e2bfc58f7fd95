/** Rounding: how far a number of cells is from the exact share of a count. */
module Shares {
  import opened Bits

  // ----- rounding one share -----

  /** Above `n` cells and so many thousandths, small shares are rounded up. */
  function Cutoff(n: nat): nat
  {
    match n
    case 1 => 451
    case 2 => 480
    case 3 => 496
    case 4 => 524
    case 5 => 667
    case 6 => 715
    case 7 => 791
    case _ => 1000
  }

  /** `n` cells for the share `part / whole`: small shares are rounded at the cutoff,
      large ones down, to a thousandth of a cell. */
  ghost predicate Rounded(n: int, part: nat, whole: nat)
  {
    && n >= 1
    && (n > 1 ==> (1000 * (n - 1) + Cutoff(n - 1)) * whole <= 1000 * part)
    && 1000 * part < (1000 * n + Cutoff(n) + 1) * whole
  }

  /** A rounded share is less than two cells below the exact one, and less than one above. */
  lemma RoundedNear(n: nat, part: nat, whole: nat)
    requires Rounded(n, part, whole)
    ensures (n - 1) * whole <= part < (n + 2) * whole
  {
    if n > 1 { Weaken(1000 * (n - 1), 1000 * (n - 1) + Cutoff(n - 1), n - 1, 0, whole); }
    Weaken(1000 * n + Cutoff(n) + 1, 1000 * n + 1001, n, 1001, whole);
    assert (n + 2) * whole == n * whole + 2 * whole;
  }

  lemma Weaken(a: nat, b: nat, n: nat, k: nat, whole: nat)
    requires a <= b
    ensures a * whole <= b * whole && (1000 * n + k) * whole == 1000 * (n * whole) + k * whole
  {
    MulMono(a, b, whole);
  }

  lemma Cancel(a: nat, b: nat, q: nat)
    requires a * q < b * q
    ensures a < b
  {
    if a >= b { MulMono(b, a, q); }
  }

  /** Scaling with a truncated step loses less than `2^-19` of a cell. */
  lemma ScaledPart(c: nat, total: nat, tableLog: nat, step: nat)
    requires c <= total && 0 < total < 0x8000_0000 && tableLog <= 12 && step == Pow2(62) / total
    ensures total * (c * step) <= Pow2(62 - tableLog) * (c * Pow2(tableLog))
    ensures c > 0 ==> Pow2(62 - tableLog) * (c * Pow2(tableLog)) < total * (c * step + 0x8000_0000)
  {
    hide Pow2;
    var whole, t, p := Pow2(62), Pow2(tableLog), Pow2(62 - tableLog);
    Pow2Add(tableLog, 62 - tableLog);
    DivisionIs(whole, total, step);
    Reorder(p, c, t);
    LostInScale(c, total, step, whole % total, whole);
    if c > 0 {
      LostLess(c, whole % total, total);
      Spread(total, c * step);
    }
  }

  lemma Reorder(p: nat, c: nat, t: nat)
    ensures p * (c * t) == c * (t * p)
  {}

  lemma LostInScale(c: nat, total: nat, step: nat, r: nat, whole: nat)
    requires whole == total * step + r
    ensures c * whole == total * (c * step) + c * r && c * r >= 0
  {
    assert c * (total * step) == total * (c * step);
    assert c * (total * step + r) == c * (total * step) + c * r;
  }

  lemma LostLess(c: nat, r: nat, total: nat)
    requires 0 < c <= total && r < total < 0x8000_0000
    ensures c * r < total * 0x8000_0000
  {
    MulMono(c, 0x7FFF_FFFF, r);
  }

  lemma Spread(total: nat, x: nat)
    ensures total * (x + 0x8000_0000) == total * x + total * 0x8000_0000
  {}

  const RTB_TABLE: seq<nat> := [0, 473195, 504333, 520860, 550000, 700000, 750000, 830000]

  /** The cutoffs are those of the table, which counts in parts of `2^20`. */
  lemma CutoffIs(n: nat)
    requires 1 <= n
    ensures n < 8 ==> Cutoff(n) * 0x10_0000 <= 1000 * RTB_TABLE[n]
    ensures 1000 * ((if n < 8 then RTB_TABLE[n] else 0x10_0000) + 2) < (Cutoff(n) + 1) * 0x10_0000
  {}

  /** `p` whole cells are kept if the rest is no more than `rest` parts of `2^20`. */
  lemma KeptBound(p: nat, scaled: nat, q: nat, rest: nat, part: nat, total: nat)
    requires q >= 0x4000_0000 && scaled <= (0x10_0000 * p + rest) * q
    requires (0x10_0000 * q) * part < total * (scaled + 0x8000_0000)
    ensures 0x10_0000 * part < (0x10_0000 * p + rest + 2) * total
  {
    var m := 0x10_0000 * p + rest;
    assert (m + 2) * q == m * q + 2 * q;
    MulMono(scaled + 0x8000_0000, (m + 2) * q, total);
    assert (scaled + 0x8000_0000) * total == total * (scaled + 0x8000_0000);
    assert ((m + 2) * q) * total == ((m + 2) * total) * q;
    assert (0x10_0000 * part) * q == (0x10_0000 * q) * part;
    Cancel(0x10_0000 * part, (m + 2) * total, q);
  }

  lemma RaisedBound(p: nat, scaled: nat, q: nat, rest: nat, part: nat, total: nat)
    requires q > 0 && scaled >= (0x10_0000 * p + rest) * q && total * scaled <= (0x10_0000 * q) * part
    ensures (0x10_0000 * p + rest) * total <= 0x10_0000 * part
  {
    var m := 0x10_0000 * p + rest;
    MulMono(m * q, scaled, total);
    assert scaled * total == total * scaled;
    assert (m * q) * total == (m * total) * q;
    assert (0x10_0000 * part) * q == (0x10_0000 * q) * part;
    if 0x10_0000 * part < m * total { MulMono(0x10_0000 * part + 1, m * total, q); }
  }

  lemma KeptRounded(n: nat, rest: nat, part: nat, total: nat)
    requires n >= 1 && 0x10_0000 * part < (0x10_0000 * n + rest + 2) * total && (0x10_0000 * n) * total <= 0x10_0000 * part
    requires 1000 * (rest + 2) < (Cutoff(n) + 1) * 0x10_0000
    ensures Rounded(n, part, total)
  {
    hide Cutoff;
    CutoffMost(n);
    CutoffMost(n - 1);
    var b := n * total;
    assert (0x10_0000 * n + rest + 2) * total == 0x10_0000 * b + (rest + 2) * total;
    assert (1000 * n + Cutoff(n) + 1) * total == 1000 * b + (Cutoff(n) + 1) * total;
    MulMono(1000 * (rest + 2), (Cutoff(n) + 1) * 0x10_0000, total);
    assert (1000 * (rest + 2)) * total == 1000 * ((rest + 2) * total);
    assert ((Cutoff(n) + 1) * 0x10_0000) * total == 0x10_0000 * ((Cutoff(n) + 1) * total);
    MulMono(1000 * (n - 1) + Cutoff(n - 1), 1000 * n, total);
    assert (1000 * n) * total == 1000 * b && (0x10_0000 * n) * total == 0x10_0000 * b;
  }

  lemma CutoffMost(n: nat)
    ensures Cutoff(n) <= 1000
  {}

  lemma RaisedRounded(p: nat, rest: nat, part: nat, total: nat)
    requires 1 <= p && 0x10_0000 * part < (0x10_0000 * p + 0x10_0000 + 2) * total
    requires (0x10_0000 * p + rest) * total <= 0x10_0000 * part && Cutoff(p) * 0x10_0000 <= 1000 * rest
    ensures Rounded(p + 1, part, total)
  {
    hide Cutoff;
    CutoffLeast(p + 1);
    var b := p * total;
    assert (0x10_0000 * p + 0x10_0000 + 2) * total == 0x10_0000 * b + 0x10_0002 * total;
    assert (0x10_0000 * p + rest) * total == 0x10_0000 * b + rest * total;
    MulMono(1450, 1000 + Cutoff(p + 1) + 1, total);
    assert (1000 * (p + 1) + Cutoff(p + 1) + 1) * total == 1000 * b + (1000 + Cutoff(p + 1) + 1) * total;
    MulMono(Cutoff(p) * 0x10_0000, 1000 * rest, total);
    assert (Cutoff(p) * 0x10_0000) * total == 0x10_0000 * (Cutoff(p) * total);
    assert (1000 * rest) * total == 1000 * (rest * total);
    assert (1000 * p + Cutoff(p)) * total == 1000 * b + Cutoff(p) * total;
  }

  lemma CutoffLeast(n: nat)
    ensures Cutoff(n) >= 451
  {}

  // ----- handing out cells along a scale -----

  /** `part` occurrences out of `rest` have got `given` of the `cells`: no more than half a
      cell too little, and less than one too many. */
  ghost predicate NoDrift(given: int, part: nat, rest: nat, cells: nat)
  {
    given >= 0 && 2 * (part * cells) <= (2 * given + 1) * rest && given * rest < part * cells + rest
  }

  /** The point of the scale after `part` occurrences. */
  function Point(mid: nat, part: nat, rStep: nat): nat { mid + part * rStep }

  /** Cutting the scale into whole cells does not let the sum drift. */
  lemma NearPoint(part: nat, rest: nat, cells: nat, v: nat, rStep: nat)
    requires 0 < rest < 0x8000_0000 && 32 <= v && part <= rest
    requires rStep == (Shl(cells, v) + Pow2(v - 1) - 1) / rest
    ensures NoDrift(Shr(Point(Pow2(v - 1) - 1, part, rStep), v), part, rest, cells)
  {
    hide Shl, Shr, Low, Pow2, Point, NoDrift;
    var h := Pow2(v - 1);
    Pow2Wide();
    Pow2Mono(31, v - 1);
    Pow2Next(v - 1);
    ShlIsMul(cells, v);
    var x: nat := cells * (2 * h) + h - 1;
    DivisionIs(x, rest, rStep);
    PointNear(part, rest, cells, h, rStep, x % rest, rest * rStep);
    PointInCells(part, rest, cells, h, Point(h - 1, part, rStep), v);
  }

  lemma PointInCells(part: nat, rest: nat, cells: nat, h: nat, at: nat, v: nat)
    requires 0 < rest <= h && Pow2(v) == 2 * h
    requires (2 * h) * (part * cells) + (h - 1) * rest <= at * rest < (2 * h) * (part * cells) + (2 * h) * rest
    ensures NoDrift(Shr(at, v), part, rest, cells)
  {
    hide Shr, Pow2;
    WholeCells(at, v);
    CellsNear(part * cells, Shr(at, v), at, h, rest);
  }

  lemma WholeCells(at: nat, v: nat)
    ensures Shr(at, v) * Pow2(v) <= at < Shr(at, v) * Pow2(v) + Pow2(v)
  {
    hide Shl, Shr, Low, Pow2;
    Split(at, v);
    LowBound(at, v);
    ShlIsMul(Shr(at, v), v);
  }

  /** `e` is what the division for the step leaves. */
  lemma PointNear(part: nat, rest: nat, cells: nat, h: nat, rStep: nat, e: nat, d: nat)
    requires e < rest <= h && part <= rest && rest * rStep == d == cells * (2 * h) + h - 1 - e
    ensures var at := Point(h - 1, part, rStep);
      (2 * h) * (part * cells) + (h - 1) * rest <= at * rest < (2 * h) * (part * cells) + (2 * h) * rest
  {
    hide Point;
    ScaleProduct(h - 1, part, rStep, rest, d);
    StepProduct(part, cells, h, e, d);
    LostAtMost(part, rest, h, e);
    Between(Point(h - 1, part, rStep) * rest, (h - 1) * rest, part * d, (2 * h) * (part * cells), part * e,
            part * (h - 1), (2 * h) * rest);
  }

  lemma Between(x: int, base: int, d: int, due: int, lost: int, gained: int, whole: int)
    requires x == base + d && d == due + gained - lost && 0 <= lost <= gained && gained + base < whole
    ensures due + base <= x < due + whole
  {}

  lemma LostAtMost(part: nat, rest: nat, h: nat, e: nat)
    requires e < rest <= h && part <= rest
    ensures 0 <= part * e <= part * (h - 1) && part * (h - 1) + (h - 1) * rest < (2 * h) * rest
  {
    MulMono(e, h - 1, part);
    MulMono(part, rest, h - 1);
    assert (2 * h) * rest == 2 * ((h - 1) * rest) + 2 * rest;
  }

  lemma DivisionIs(x: nat, n: nat, q: nat)
    requires n > 0 && q == x / n
    ensures n * q == x - x % n
  {}

  lemma ScaleProduct(mid: nat, part: nat, rStep: nat, rest: nat, d: nat)
    requires d == rest * rStep
    ensures Point(mid, part, rStep) * rest == mid * rest + part * d
  {
    assert (part * rStep) * rest == part * (rest * rStep);
  }

  lemma StepProduct(part: nat, cells: nat, h: nat, e: nat, d: nat)
    requires d == cells * (2 * h) + h - 1 - e
    ensures part * d == (2 * h) * (part * cells) + part * (h - 1) - part * e
  {
    assert part * (cells * (2 * h)) == (2 * h) * (part * cells);
    assert part * (cells * (2 * h) + (h - 1 - e)) == part * (cells * (2 * h)) + part * (h - 1 - e);
    assert part * (h - 1 - e) == part * (h - 1) - part * e;
  }

  lemma CellsNear(due: nat, given: nat, at: nat, h: nat, rest: nat)
    requires given * (2 * h) <= at < given * (2 * h) + 2 * h && 0 < rest <= h
    requires (2 * h) * due + (h - 1) * rest <= at * rest < (2 * h) * due + (2 * h) * rest
    ensures 2 * due <= (2 * given + 1) * rest && given * rest < due + rest
  {
    NotTooMany(due, given, at, 2 * h, rest);
    BelowNext(given, at, 2 * h, rest);
    TooLittle(due, given * rest, at * rest, h, rest);
    assert (2 * given + 1) * rest == 2 * (given * rest) + rest;
  }

  lemma BelowNext(given: nat, at: nat, w: nat, rest: nat)
    requires at < given * w + w
    ensures at * rest + rest <= (given * rest) * w + w * rest
  {
    Regroup(given, w, rest);
    MulMono(at + 1, given * w + w, rest);
    assert (at + 1) * rest == at * rest + rest;
  }

  lemma NotTooMany(due: nat, given: nat, at: nat, w: nat, rest: nat)
    requires given * w <= at && at * rest < w * due + w * rest
    ensures given * rest < due + rest
  {
    MulMono(given * w, at, rest);
    Regroup(given, w, rest);
    assert (due + rest) * w == w * due + w * rest;
    Cancel(given * rest, due + rest, w);
  }

  lemma Regroup(given: nat, w: nat, rest: nat)
    ensures (given * w) * rest == (given * rest) * w
    ensures (given * w + w) * rest == (given * rest) * w + w * rest
  {}

  lemma TooLittle(due: nat, held: nat, x: nat, h: nat, rest: nat)
    requires (2 * h) * due + (h - 1) * rest <= x && x + rest <= held * (2 * h) + (2 * h) * rest && h > 0
    ensures 2 * due <= 2 * held + rest
  {
    assert (h - 1) * rest + rest == h * rest;
    assert (2 * h) * rest == 2 * (h * rest);
    assert (2 * due) * h == (2 * h) * due;
    assert (2 * held + rest) * h == held * (2 * h) + h * rest;
    if 2 * due > 2 * held + rest { MulMono(2 * held + rest + 1, 2 * due, h); }
  }
}
