/** Canonical Huffman codes: what `HUF_buildCTableFromTree` and `HUF_readCTable`
    assign, and why it is a complete prefix code (section 4.2.1.3 of RFC 8878). */
module HufCodes {
  import opened Bits
  import opened Counting
  import opened Kraft

  /** Code lengths by symbol; 0 marks a symbol that does not occur. */
  ghost predicate Complete(nb: seq<nat>, unit: nat)
  {
    (forall s :: 0 <= s < |nb| ==> nb[s] <= unit) && Sum(Longer(nb, 0), |nb|, unit) == Pow2(unit)
  }

  function Only(count: bool, b: int): int { if count then b else -1 }

  /** The lengths above `b`; the others count for nothing. */
  function Longer(nb: seq<nat>, b: nat): (r: seq<int>)
    ensures |r| == |nb|
  {
    seq(|nb|, t requires 0 <= t < |nb| => Only(nb[t] > b, nb[t]))
  }

  /** Longer codes come first, equal ones by symbol. */
  predicate Precedes(nb: seq<nat>, t: nat, s: nat)
    requires t < |nb| && s < |nb|
  {
    nb[t] > nb[s] || (nb[t] == nb[s] && t < s)
  }

  function Preds(nb: seq<nat>, s: nat): (r: seq<int>)
    requires s < |nb|
    ensures |r| == |nb|
  {
    seq(|nb|, t requires 0 <= t < |nb| => Only(Precedes(nb, t, s), nb[t]))
  }

  /** Where the code words that start with the word of `s` begin, among all strings
      of `unit` bits. */
  function Start(nb: seq<nat>, unit: nat, s: nat): nat
    requires s < |nb|
  {
    Sum(Preds(nb, s), |nb|, unit)
  }

  /** The reference definition: `v` is the word of `s`. */
  predicate IsCode(nb: seq<nat>, unit: nat, s: nat, v: nat)
    requires s < |nb| && nb[s] <= unit
  {
    Shl(v, unit - nb[s]) == Start(nb, unit, s)
  }

  ghost predicate Canonical(nb: seq<nat>, unit: nat, vals: seq<nat>)
  {
    && |vals| == |nb| && (forall s :: 0 <= s < |nb| ==> nb[s] <= unit)
    && forall s :: 0 <= s < |nb| && nb[s] > 0 ==> IsCode(nb, unit, s, vals[s])
  }

  // ----- sums over some of the symbols -----

  lemma {:induction false} SumPart(a: seq<int>, b: seq<int>, k: nat, unit: nat)
    requires k <= |a| && k <= |b| && forall i :: 0 <= i < k ==> a[i] == b[i] || a[i] == -1
    ensures Sum(a, k, unit) <= Sum(b, k, unit)
  {
    if k > 0 { SumPart(a, b, k - 1, unit); }
  }

  lemma {:induction false} LongerStep(nb: seq<nat>, k: nat, unit: nat, b: nat)
    requires k <= |nb| && 1 <= b <= unit
    ensures Sum(Longer(nb, b - 1), k, unit) == Sum(Longer(nb, b), k, unit) + Shl(Rank(nb, k, b), unit - b)
    decreases k
  {
    hide Shl, Pow2;
    if k == 0 {
      ShlZero(unit - b);
    } else {
      LongerStep(nb, k - 1, unit, b);
      ShlAdd(Rank(nb, k - 1, b), 1, unit - b);
      ShlOne(unit - b);
    }
  }

  /** Words of at most `c` bits take up a multiple of `2^(unit - c)`. */
  lemma {:induction false} ShorterMultiple(nb: seq<nat>, k: nat, unit: nat, c: nat) returns (q: nat)
    requires k <= |nb| && c <= unit
    ensures Sum(Longer(nb, 0), k, unit) == Sum(Longer(nb, c), k, unit) + Shl(q, unit - c)
    decreases k
  {
    hide Shl, Pow2;
    if k == 0 {
      q := 0;
      ShlZero(unit - c);
    } else {
      q := ShorterMultiple(nb, k - 1, unit, c);
      var b := nb[k - 1];
      if 0 < b <= c {
        ShlAdd(q, Pow2(c - b), unit - c);
        PowerSplit(c - b, unit - c);
        q := q + Pow2(c - b);
      }
    }
  }

  lemma {:induction false} PredsSum(nb: seq<nat>, s: nat, k: nat, unit: nat)
    requires k <= |nb| && s < |nb| && nb[s] <= unit
    ensures Sum(Preds(nb, s), k, unit)
         == Sum(Longer(nb, nb[s]), k, unit) + Shl(Rank(nb, if k <= s then k else s, nb[s]), unit - nb[s])
    decreases k
  {
    hide Shl, Pow2;
    if k == 0 {
      ShlZero(unit - nb[s]);
    } else {
      PredsSum(nb, s, k - 1, unit);
      if k <= s {
        ShlAdd(Rank(nb, k - 1, nb[s]), 1, unit - nb[s]);
        ShlOne(unit - nb[s]);
      }
    }
  }

  lemma {:induction false} WithSelf(nb: seq<nat>, s: nat, with: seq<int>, k: nat, unit: nat)
    requires k <= |nb| && s < |nb| && with == Preds(nb, s)[s := nb[s]]
    ensures Sum(with, k, unit) == Sum(Preds(nb, s), k, unit) + (if s < k then Share(unit, nb[s]) else 0)
    decreases k
  {
    hide Share;
    if k > 0 { WithSelf(nb, s, with, k - 1, unit); }
    assert Share(unit, -1) == 0 by { NoShare(unit); }
  }

  lemma NoShare(unit: nat)
    ensures Share(unit, -1) == 0
  {}

  // ----- the halving loop -----

  /** The first value of rank `b`. */
  ghost predicate FirstValue(nb: seq<nat>, unit: nat, b: nat, v: nat)
  {
    b <= unit && Shl(v, unit - b) == Sum(Longer(nb, b), |nb|, unit)
  }

  /** Halving never drops a set bit: the words longer than `b - 1` bits fill a whole
      number of places of `b - 1` bits, as the shorter ones do. */
  lemma Halve(nb: seq<nat>, unit: nat, b: nat, v: nat)
    requires Complete(nb, unit) && 1 <= b <= unit && FirstValue(nb, unit, b, v)
    ensures (v + Rank(nb, |nb|, b)) % 2 == 0
    ensures FirstValue(nb, unit, b - 1, (v + Rank(nb, |nb|, b)) / 2)
    ensures v + Rank(nb, |nb|, b) <= Pow2(b)
  {
    hide Shl, Pow2, Sum, Rank, Longer;
    var n := Rank(nb, |nb|, b);
    LongerStep(nb, |nb|, unit, b);
    ShlAdd(v, n, unit - b);
    var q := ShorterMultiple(nb, |nb|, unit, b - 1);
    PowerSplit(b - 1, unit - b + 1);
    var half := EvenSum(v + n, q, Pow2(b - 1), unit - b);
    Pow2Next(b - 1);
  }

  lemma EvenSum(x: nat, q: nat, whole: nat, d: nat) returns (half: nat)
    requires Shl(x, d) + Shl(q, d + 1) == Shl(whole, d + 1)
    ensures x == 2 * half && half <= whole && Shl(half, d + 1) == Shl(x, d)
  {
    hide Shl;
    if q > whole { ShlMono(whole, q, d + 1); }
    half := whole - q;
    ShlAdd(half, q, d + 1);
    ShlShl(half, 1, d);
    ShlNext(half, 0);
    ShiftNone(half);
    ShrShl(x, d);
    ShrShl(2 * half, d);
  }

  lemma FirstRank(nb: seq<nat>, unit: nat)
    requires forall s :: 0 <= s < |nb| ==> nb[s] <= unit
    ensures FirstValue(nb, unit, unit, 0)
  {
    SumNone(Longer(nb, unit), |nb|, unit);
    ShlZero(0);
  }

  lemma {:induction false} SumNone(bits: seq<int>, k: nat, unit: nat)
    requires k <= |bits| && forall i :: 0 <= i < k ==> bits[i] == -1
    ensures Sum(bits, k, unit) == 0
  {
    if k > 0 { SumNone(bits, k - 1, unit); }
  }

  /** Counting up from the first value of its rank gives a symbol its word. */
  lemma CodeFrom(nb: seq<nat>, unit: nat, s: nat, first: nat)
    requires s < |nb| && FirstValue(nb, unit, nb[s], first)
    ensures IsCode(nb, unit, s, first + Rank(nb, s, nb[s]))
  {
    hide Shl, Sum;
    PredsSum(nb, s, |nb|, unit);
    ShlAdd(first, Rank(nb, s, nb[s]), unit - nb[s]);
  }

  // ----- a complete prefix code -----

  lemma {:induction false} UsedPart(nb: seq<nat>, s: nat, unit: nat)
    requires s < |nb| && nb[s] > 0
    ensures Start(nb, unit, s) + Share(unit, nb[s]) <= Sum(Longer(nb, 0), |nb|, unit)
  {
    hide Sum, Share;
    var with := Preds(nb, s)[s := nb[s]];
    WithSelf(nb, s, with, |nb|, unit);
    SumPart(with, Longer(nb, 0), |nb|, unit);
  }

  lemma ShareShl(unit: nat, b: nat)
    requires b <= unit
    ensures Share(unit, b) == Shl(1, unit - b) == Pow2(unit - b) > 0
  {
    ShlOne(unit - b);
  }

  /** A word fits its length. */
  lemma CodeFits(nb: seq<nat>, unit: nat, s: nat, v: nat)
    requires Complete(nb, unit) && s < |nb| && nb[s] > 0 && IsCode(nb, unit, s, v)
    ensures v < Pow2(nb[s])
  {
    hide Shl, Pow2, Sum, Share;
    UsedPart(nb, s, unit);
    ShareShl(unit, nb[s]);
    PowerSplit(nb[s], unit - nb[s]);
    if v >= Pow2(nb[s]) { ShlMono(Pow2(nb[s]), v, unit - nb[s]); }
  }

  /** Words in order do not overlap. */
  lemma Apart(nb: seq<nat>, unit: nat, t: nat, s: nat)
    requires t < |nb| && s < |nb| && Precedes(nb, t, s)
    ensures Start(nb, unit, t) + Share(unit, nb[t]) <= Start(nb, unit, s)
  {
    hide Sum, Share;
    var with := Preds(nb, t)[t := nb[t]];
    WithSelf(nb, t, with, |nb|, unit);
    SumPart(with, Preds(nb, s), |nb|, unit);
  }

  /** `w`, a string of `unit` bits, starts with the word of `s`. */
  ghost predicate StartsWith(nb: seq<nat>, unit: nat, vals: seq<nat>, s: nat, w: nat)
  {
    s < |nb| && s < |vals| && 0 < nb[s] <= unit && Shr(w, unit - nb[s]) == vals[s]
  }

  lemma StartsIff(nb: seq<nat>, unit: nat, vals: seq<nat>, s: nat, w: nat)
    requires Canonical(nb, unit, vals) && s < |nb| && nb[s] > 0
    ensures StartsWith(nb, unit, vals, s, w)
       <==> Start(nb, unit, s) <= w < Start(nb, unit, s) + Share(unit, nb[s])
  {
    hide Sum, Shl, Pow2, Share, Shr;
    var d := unit - nb[s];
    assert IsCode(nb, unit, s, vals[s]);
    ShareShl(unit, nb[s]);
    ShlAdd(vals[s], 1, d);
    ShrVersusShl(w, vals[s], d);
    ShrVersusShl(w, vals[s] + 1, d);
  }

  /** No string starts with two words. */
  lemma PrefixFree(nb: seq<nat>, unit: nat, vals: seq<nat>, s: nat, t: nat, w: nat)
    requires Canonical(nb, unit, vals)
    requires StartsWith(nb, unit, vals, s, w) && StartsWith(nb, unit, vals, t, w)
    ensures s == t
  {
    hide Sum, Shl, Pow2, Share, Shr;
    StartsIff(nb, unit, vals, s, w);
    StartsIff(nb, unit, vals, t, w);
    if s != t {
      if Precedes(nb, s, t) { Apart(nb, unit, s, t); } else { Apart(nb, unit, t, s); }
    }
  }

  /** The last of the first `k` symbols, in code order, that starts at `w` or before. */
  lemma {:induction false} LastBefore(nb: seq<nat>, unit: nat, w: nat, k: nat) returns (s: nat)
    requires k <= |nb|
    ensures s < k || s == |nb|
    ensures s < k ==> nb[s] > 0 && Start(nb, unit, s) <= w
    ensures forall t: nat :: t < k && nb[t] > 0 && Start(nb, unit, t) <= w && t != s ==> s < k && Precedes(nb, t, s)
  {
    hide Start;
    if k == 0 { return |nb|; }
    var p := LastBefore(nb, unit, w, k - 1);
    if nb[k - 1] > 0 && Start(nb, unit, k - 1) <= w && (p == |nb| || Precedes(nb, p, k - 1)) {
      s := k - 1;
    } else {
      s := p;
    }
  }

  /** The first of the first `k` symbols, in code order, that starts after `w`. */
  lemma {:induction false} FirstAfter(nb: seq<nat>, unit: nat, w: nat, k: nat) returns (s: nat)
    requires k <= |nb|
    ensures s < k || s == |nb|
    ensures s < k ==> nb[s] > 0 && Start(nb, unit, s) > w
    ensures forall t: nat :: t < k && nb[t] > 0 && Start(nb, unit, t) > w && t != s ==> s < k && Precedes(nb, s, t)
  {
    hide Start;
    if k == 0 { return |nb|; }
    var p := FirstAfter(nb, unit, w, k - 1);
    if nb[k - 1] > 0 && Start(nb, unit, k - 1) > w && (p == |nb| || Precedes(nb, k - 1, p)) {
      s := k - 1;
    } else {
      s := p;
    }
  }

  /** Every string of `unit` bits starts with some word. */
  lemma Covered(nb: seq<nat>, unit: nat, vals: seq<nat>, w: nat) returns (s: nat)
    requires Complete(nb, unit) && Canonical(nb, unit, vals) && w < Pow2(unit)
    ensures StartsWith(nb, unit, vals, s, w)
  {
    hide Shl, Pow2, Share, Shr, Sum, Start;
    s := LastBefore(nb, unit, w, |nb|);
    var t := FirstAfter(nb, unit, w, |nb|);
    var next := if t < |nb| then Start(nb, unit, t) else Pow2(unit);
    var preds := if t < |nb| then Preds(nb, t) else Longer(nb, 0);
    NextStart(nb, unit, t, preds, next);
    if s == |nb| {
      forall i | 0 <= i < |nb| ensures preds[i] == -1 {}
      SumNone(preds, |nb|, unit);
    } else {
      var with := Preds(nb, s)[s := nb[s]];
      WithSelf(nb, s, with, |nb|, unit);
      SelfStart(nb, unit, s);
      forall i | 0 <= i < |nb| ensures preds[i] == with[i] || preds[i] == -1 {}
      SumPart(preds, with, |nb|, unit);
      StartsIff(nb, unit, vals, s, w);
    }
  }

  lemma SelfStart(nb: seq<nat>, unit: nat, s: nat)
    requires s < |nb|
    ensures Start(nb, unit, s) == Sum(Preds(nb, s), |nb|, unit)
  {}

  lemma NextStart(nb: seq<nat>, unit: nat, t: nat, preds: seq<int>, next: nat)
    requires Complete(nb, unit) && t <= |nb|
    requires next == if t < |nb| then Start(nb, unit, t) else Pow2(unit)
    requires preds == if t < |nb| then Preds(nb, t) else Longer(nb, 0)
    ensures next == Sum(preds, |nb|, unit)
  {}

  // ----- table elements -----

  /** A `HUF_CElt`: the length in the low byte, the word in the top bits. */
  function Elt(v: nat, nb: nat): nat
  {
    if nb == 0 || nb > 64 then 0 else nb + Shl(v, 64 - nb)
  }

  /** `HUF_getNbBits`. */
  function NbBits(elt: nat): nat { Low(elt, 8) }

  /** `HUF_setValue`. */
  function SetValue(elt: nat, v: nat): nat
    requires NbBits(elt) <= 64
  {
    if NbBits(elt) > 0 then BitOr(elt, Low(Shl(v, 64 - NbBits(elt)), 64)) else elt
  }

  lemma LengthAlone(nb: nat)
    requires nb <= 12
    ensures NbBits(nb) == nb
  {
    Pow2Values();
    LowSmall(nb, 8);
  }

  lemma SetValueGives(nb: nat, v: nat)
    requires nb <= 12 && (nb > 0 ==> v < Pow2(nb))
    ensures NbBits(nb) == nb && SetValue(nb, v) == Elt(v, nb)
  {
    hide Shl, Low, BitOr, Pow2;
    LengthAlone(nb);
    if nb > 0 {
      JoinBound(0, v, 64 - nb, nb);
      LowSmall(Shl(v, 64 - nb), 64);
      Pow2Values();
      Pow2Mono(4, 64 - nb);
      OrAbove(nb, v, 64 - nb);
    }
  }

  /** The table of elements for lengths `nb` and words `vals`. */
  ghost predicate IsTable(elts: seq<nat>, nb: seq<nat>, vals: seq<nat>)
  {
    && |elts| == |nb| == |vals|
    && forall s :: 0 <= s < |nb| ==> elts[s] == Elt(vals[s], nb[s])
  }

  /** The first value of every rank, by halving from the longest on. */
  method StartingValues(nbPerRank: array<nat>, maxNbBits: nat, ghost nb: seq<nat>) returns (valPerRank: array<nat>)
    requires maxNbBits <= HUF_TABLELOG_MAX < nbPerRank.Length && Complete(nb, maxNbBits)
    requires forall b :: 1 <= b <= maxNbBits ==> nbPerRank[b] == Rank(nb, |nb|, b)
    ensures fresh(valPerRank) && valPerRank.Length == nbPerRank.Length
    ensures forall b :: 1 <= b <= maxNbBits ==> FirstValue(nb, maxNbBits, b, valPerRank[b])
  {
    hide FirstValue, Rank, Complete;
    valPerRank := new nat[nbPerRank.Length](_ => 0);
    CompleteCap(nb, maxNbBits);
    FirstRank(nb, maxNbBits);
    var min := 0;
    for n := maxNbBits downto 0
      invariant FirstValue(nb, maxNbBits, n, min)
      invariant forall b :: n < b <= maxNbBits ==> FirstValue(nb, maxNbBits, b, valPerRank[b])
    {
      Halve(nb, maxNbBits, n + 1, min);
      valPerRank[n + 1] := min;
      min := (min + nbPerRank[n + 1]) / 2;
    }
  }

  lemma CompleteCap(nb: seq<nat>, unit: nat)
    requires Complete(nb, unit)
    ensures forall s :: 0 <= s < |nb| ==> nb[s] <= unit
  {}

  /** Hands out the words of each rank in symbol order. */
  method AssignValues(ct: array<nat>, valPerRank: array<nat>, maxNbBits: nat, ghost nb: seq<nat>)
    returns (ghost vals: seq<nat>)
    requires ct != valPerRank && maxNbBits <= HUF_TABLELOG_MAX < valPerRank.Length && ct[..] == nb
    requires Complete(nb, maxNbBits)
    requires forall b :: 1 <= b <= maxNbBits ==> FirstValue(nb, maxNbBits, b, valPerRank[b])
    modifies ct, valPerRank
    ensures Canonical(nb, maxNbBits, vals) && IsTable(ct[..], nb, vals)
    ensures forall s :: 0 <= s < |nb| && nb[s] > 0 ==> vals[s] < Pow2(nb[s])
  {
    hide FirstValue, Rank, Complete, IsCode, Pow2, NbBits, SetValue, Elt;
    ghost var first := valPerRank[..];
    vals := [];
    CompleteCap(nb, maxNbBits);
    for n := 0 to ct.Length
      invariant |vals| == n && ct[n..] == nb[n..] && forall s :: 0 <= s < n ==> ct[s] == Elt(vals[s], nb[s])
      invariant forall s :: 0 <= s < n && nb[s] > 0 ==> IsCode(nb, maxNbBits, s, vals[s]) && vals[s] < Pow2(nb[s])
      invariant forall b :: 0 <= b < |first| ==> valPerRank[b] == first[b] + Rank(nb, n, b)
    {
      assert ct[n] == ct[n..][0] == nb[n] <= maxNbBits;
      ghost var v := valPerRank[nb[n]];
      if nb[n] > 0 {
        CodeFrom(nb, maxNbBits, n, first[nb[n]]);
        CodeFits(nb, maxNbBits, n, v);
      }
      SetValueGives(nb[n], v);
      var b := NbBits(ct[n]);
      ct[n] := SetValue(ct[n], valPerRank[b]);
      valPerRank[b] := valPerRank[b] + 1;
      RankNext(nb, n);
      vals := vals + [v];
    }
  }
}
