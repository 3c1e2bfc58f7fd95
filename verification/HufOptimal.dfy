/** Optimal prefix codes: merging the two lightest symbols loses nothing. */
module HufOptimal {
  import opened Bits
  import opened Kraft

  /** The total length of the coded message: each symbol's weight times its length. */
  function Cost(ws: seq<nat>, ds: seq<nat>): nat
    requires |ws| == |ds|
  {
    if ws == [] then 0 else Cost(ws[..|ws| - 1], ds[..|ws| - 1]) + ws[|ws| - 1] * ds[|ws| - 1]
  }

  /** The lengths of some prefix code, by Kraft's inequality; `unit` is any bound on
      them. */
  ghost predicate PrefixCode(ds: seq<nat>, unit: nat)
  {
    (forall i :: 0 <= i < |ds| ==> ds[i] <= unit) && Sum(ds, |ds|, unit) <= Pow2(unit)
  }

  /** No prefix code does better. */
  ghost predicate Best(ws: seq<nat>, ds: seq<nat>)
    requires |ws| == |ds|
  {
    forall other: seq<nat>, unit: nat :: |other| == |ws| && PrefixCode(other, unit) ==> Cost(ws, ds) <= Cost(ws, other)
  }

  // ----- sums over concatenations and updates -----

  lemma {:induction false} CostAppend(ws: seq<nat>, ds: seq<nat>, vs: seq<nat>, es: seq<nat>)
    requires |ws| == |ds| && |vs| == |es|
    ensures Cost(ws + vs, ds + es) == Cost(ws, ds) + Cost(vs, es)
    decreases |vs|
  {
    if vs == [] {
      assert ws + vs == ws && ds + es == ds;
    } else {
      var m := |vs| - 1;
      CostAppend(ws, ds, vs[..m], es[..m]);
      assert (ws + vs)[..|ws| + m] == ws + vs[..m];
      assert (ds + es)[..|ws| + m] == ds + es[..m];
    }
  }

  lemma {:induction false} SumAppend(a: seq<int>, b: seq<int>, unit: nat)
    ensures Sum(a + b, |a + b|, unit) == Sum(a, |a|, unit) + Sum(b, |b|, unit)
    decreases |b|
  {
    if b == [] {
      assert a + b == a;
    } else {
      var m := |b| - 1;
      SumAppend(a, b[..m], unit);
      SumSame(a + b, a + b[..m], |a| + m, unit);
      SumSame(b, b[..m], m, unit);
    }
  }

  lemma {:induction false} CostUpdate(ws: seq<nat>, ds: seq<nat>, i: nat, d: nat)
    requires |ws| == |ds| && i < |ws|
    ensures Cost(ws, ds[i := d]) + ws[i] * ds[i] == Cost(ws, ds) + ws[i] * d
    decreases |ws|
  {
    var m := |ws| - 1;
    if i == m {
      assert ds[i := d][..m] == ds[..m];
    } else {
      assert ds[i := d][..m] == ds[..m][i := d];
      CostUpdate(ws[..m], ds[..m], i, d);
    }
  }

  function Swap(ds: seq<nat>, i: nat, j: nat): (r: seq<nat>)
    requires i < |ds| && j < |ds|
    ensures |r| == |ds|
  {
    ds[i := ds[j]][j := ds[i]]
  }

  lemma Product(a: nat, b: nat, x: nat, y: nat)
    requires a <= b && x <= y
    ensures a * y + b * x <= a * x + b * y
  {
    assert (b - a) * (y - x) == b * y - b * x - a * y + a * x;
    assert (b - a) * (y - x) >= 0;
  }

  /** Giving the longer word to the lighter symbol costs nothing. */
  lemma Exchange(ws: seq<nat>, ds: seq<nat>, unit: nat, i: nat, j: nat)
    requires |ws| == |ds| && i < |ws| && j < |ws| && i != j
    requires ws[i] <= ws[j] && ds[i] <= ds[j] && PrefixCode(ds, unit)
    ensures PrefixCode(Swap(ds, i, j), unit) && Cost(ws, Swap(ds, i, j)) <= Cost(ws, ds)
  {
    hide Sum, Pow2, Share;
    var e := ds[i := ds[j]];
    SumUpdate(ds, |ds|, unit, i, ds[j]);
    SumUpdate(e, |ds|, unit, j, ds[i]);
    CostUpdate(ws, ds, i, ds[j]);
    CostUpdate(ws, e, j, ds[i]);
    Product(ws[i], ws[j], ds[i], ds[j]);
  }

  /** The position of a longest word other than `p` (and `p` itself if it is the only one). */
  lemma {:induction false} Longest(ds: seq<nat>, p: int, n: nat) returns (i: nat)
    requires 0 < n <= |ds| && !(n == 1 && p == 0)
    ensures i < n && i != p && forall j :: 0 <= j < n && j != p ==> ds[j] <= ds[i]
    decreases n
  {
    if n == 1 || (n == 2 && p == 0) {
      i := n - 1;
    } else if n - 1 == p {
      i := Longest(ds, p, n - 1);
    } else {
      i := Longest(ds, p, n - 1);
      if ds[n - 1] > ds[i] { i := n - 1; }
    }
  }

  ghost predicate Lightest(ws: seq<nat>, p: nat)
    requires p + 1 < |ws|
  {
    forall i :: 0 <= i < |ws| && i != p && i != p + 1 ==> ws[p] <= ws[i] && ws[p + 1] <= ws[i]
  }

  /** Some code that costs no more gives the two lightest symbols the longest words. */
  lemma DeepestPair(ws: seq<nat>, ds: seq<nat>, unit: nat, p: nat) returns (es: seq<nat>)
    requires |ws| == |ds| && p + 1 < |ws| && Lightest(ws, p) && PrefixCode(ds, unit)
    ensures |es| == |ws| && PrefixCode(es, unit) && Cost(ws, es) <= Cost(ws, ds)
    ensures forall i :: 0 <= i < |es| && i != p && i != p + 1 ==> es[i] <= es[p] && es[i] <= es[p + 1]
  {
    hide Cost, PrefixCode;
    var q := p + 1;
    var i := Longest(ds, -1, |ds|);
    var cs := ds;
    if i != p && i != q {
      Exchange(ws, ds, unit, p, i);
      cs := Swap(ds, p, i);
      i := p;
    }
    var k := if i == p then q else p;
    var j := Longest(cs, i, |cs|);
    es := cs;
    if j != k {
      Exchange(ws, cs, unit, k, j);
      es := Swap(cs, k, j);
    }
  }

  /** The longer of the two words can be cut to the length of the other: the rest of
      the code leaves a gap that is a multiple of the other's share. */
  lemma Level(ws: seq<nat>, ds: seq<nat>, unit: nat, p: nat, q: nat) returns (es: seq<nat>)
    requires |ws| == |ds| && p < |ws| && q < |ws| && p != q && PrefixCode(ds, unit)
    requires ds[q] <= ds[p] && forall i :: 0 <= i < |ds| && i != p ==> ds[i] <= ds[q]
    ensures es == ds[p := ds[q]] && PrefixCode(es, ds[q]) && Cost(ws, es) <= Cost(ws, ds)
  {
    hide Sum, Pow2, Share;
    es := ds[p := ds[q]];
    CostUpdate(ws, ds, p, ds[q]);
    assert ws[p] * ds[q] <= ws[p] * ds[p] by { MulLess(ws[p], ds[q], ds[p]); }
    var L := ds[q];
    SumUpdate(ds, |ds|, unit, p, L);
    SumScale(es, |es|, L, unit);
    var k := unit - L;
    PowerSplit(L, k);
    var rest := Sum(es, |es|, L);
    ShareAt(L, unit);
    ShareAt(ds[p], unit);
    if rest > Pow2(L) {
      ShlMono(Pow2(L) + 1, rest, k);
      ShlAdd(Pow2(L), 1, k);
      ShlOne(k);
    }
  }

  lemma MulLess(a: nat, x: nat, y: nat)
    requires x <= y
    ensures a * x <= a * y
  {}

  lemma ShareAt(b: nat, unit: nat)
    requires b <= unit
    ensures Share(unit, b) == Pow2(unit - b) >= 1
  {}

  // ----- merging -----

  /** The cost and the sum of a code with two words in the middle, and of the code
      where one word at the end takes their place. */
  lemma SplitCost(x: seq<nat>, a: nat, b: nat, y: seq<nat>, dx: seq<nat>, d: nat, dy: seq<nat>)
    requires |x| == |dx| && |y| == |dy|
    ensures Cost(x + [a, b] + y, dx + [d + 1, d + 1] + dy) == Cost(x + y + [a + b], dx + dy + [d]) + a + b
  {
    hide *;
    CostAppend(x + [a, b], dx + [d + 1, d + 1], y, dy);
    CostAppend(x, dx, [a, b], [d + 1, d + 1]);
    CostAppend(x + y, dx + dy, [a + b], [d]);
    CostAppend(x, dx, y, dy);
    CostTwo(a, b, d + 1);
    CostOne(a + b, d);
    Distribute(a, b, d);
  }

  lemma Distribute(a: nat, b: nat, d: nat)
    ensures a * (d + 1) + b * (d + 1) == (a + b) * d + a + b
  {}

  lemma CostOne(a: nat, d: nat)
    ensures Cost([a], [d]) == a * d
  {}

  lemma CostTwo(a: nat, b: nat, d: nat)
    ensures Cost([a, b], [d, d]) == a * d + b * d
  {
    CostOne(a, d);
    assert [a, b][..1] == [a] && [d, d][..1] == [d];
    assert Cost([a, b], [d, d]) == Cost([a, b][..1], [d, d][..1]) + b * d;
  }

  lemma SplitSum(dx: seq<nat>, d: nat, dy: seq<nat>, unit: nat)
    requires d < unit
    ensures var pair, one := dx + [d + 1, d + 1] + dy, dx + dy + [d];
            Sum(pair, |pair|, unit) == Sum(one, |one|, unit)
  {
    hide Sum, Share;
    SumAppend(dx + [d + 1, d + 1], dy, unit);
    SumAppend(dx, [d + 1, d + 1], unit);
    SumAppend(dx + dy, [d], unit);
    SumAppend(dx, dy, unit);
    SumShort(d, unit);
  }

  lemma SumShort(d: nat, unit: nat)
    requires d < unit
    ensures Sum([d + 1, d + 1], 2, unit) == Sum([d], 1, unit)
  {
    assert Sum([d + 1, d + 1], 1, unit) == Share(unit, d + 1);
    Pow2Next(unit - d - 1);
  }

  /** Any code for the split weights yields one for the merged weights that costs
      less by the merged weight. */
  lemma MergeCode(x: seq<nat>, a: nat, b: nat, y: seq<nat>, ds: seq<nat>, unit: nat) returns (es: seq<nat>)
    requires |ds| == |x| + 2 + |y| && PrefixCode(ds, unit)
    requires Lightest(x + [a, b] + y, |x|)
    ensures |es| == |x| + |y| + 1 && exists u: nat :: PrefixCode(es, u)
    ensures Cost(x + y + [a + b], es) + a + b <= Cost(x + [a, b] + y, ds)
  {
    hide Cost, Sum, Share, Pow2, Lightest;
    var ws, p := x + [a, b] + y, |x|;
    var fs := DeepestPair(ws, ds, unit, p);
    var gs;
    if fs[p] >= fs[p + 1] {
      gs := Level(ws, fs, unit, p, p + 1);
    } else {
      gs := Level(ws, fs, unit, p + 1, p);
    }
    var L := gs[p];
    var dx, dy := gs[..p], gs[p + 2..];
    assert gs == dx + [L, L] + dy;
    PairNotEmpty(dx, L, dy);
    SplitCost(x, a, b, y, dx, L - 1, dy);
    SplitSum(dx, L - 1, dy, L);
    es := dx + dy + [L - 1];
    assert PrefixCode(es, L);
  }

  /** Two words of the full length need a length of at least one. */
  lemma PairNotEmpty(dx: seq<nat>, d: nat, dy: seq<nat>)
    requires PrefixCode(dx + [d, d] + dy, d)
    ensures d > 0
  {
    SumAppend(dx + [d, d], dy, d);
    SumAppend(dx, [d, d], d);
    SumFlat([d, d], 2, d);
  }

  /** Huffman's step: a best code for the merged weights, split again, is a best
      code. */
  lemma BestSplit(x: seq<nat>, a: nat, b: nat, y: seq<nat>, dx: seq<nat>, d: nat, dy: seq<nat>)
    requires |x| == |dx| && |y| == |dy|
    requires Lightest(x + [a, b] + y, |x|)
    requires Best(x + y + [a + b], dx + dy + [d])
    ensures Best(x + [a, b] + y, dx + [d + 1, d + 1] + dy)
  {
    hide Cost, PrefixCode, Lightest;
    var ws, ds := x + [a, b] + y, dx + [d + 1, d + 1] + dy;
    SplitCost(x, a, b, y, dx, d, dy);
    forall other: seq<nat>, unit: nat | |other| == |ws| && PrefixCode(other, unit)
      ensures Cost(ws, ds) <= Cost(ws, other)
    {
      var es := MergeCode(x, a, b, y, other, unit);
      var u: nat :| PrefixCode(es, u);
    }
  }

  lemma BestSingle(w: nat)
    ensures Best([w], [0])
  {
    CostOne(w, 0);
  }

  // ----- Kraft's inequality: every prefix code has the lengths of one -----

  type Word = seq<bool>

  ghost predicate NoPrefix(words: seq<Word>)
  {
    forall i, j :: 0 <= i < |words| && 0 <= j < |words| && i != j ==> !(words[i] <= words[j])
  }

  function LengthsOf(words: seq<Word>): (r: seq<nat>)
    ensures |r| == |words|
  {
    seq(|words|, i requires 0 <= i < |words| => |words[i]|)
  }

  /** What follows `bit` in the words that start with it. */
  function After(words: seq<Word>, bit: bool): (r: seq<Word>)
    ensures |r| <= |words|
  {
    if words == [] then []
    else
      var n, w := |words| - 1, words[|words| - 1];
      After(words[..n], bit) + (if |w| > 0 && w[0] == bit then [w[1..]] else [])
  }

  /** Element `k` comes from a word of its own. */
  lemma {:induction false} AfterAt(words: seq<Word>, bit: bool, k: nat) returns (i: nat)
    requires k < |After(words, bit)|
    ensures i < |words| && words[i] == [bit] + After(words, bit)[k] && |After(words[..i], bit)| == k
    decreases |words|
  {
    var n := |words| - 1;
    if k < |After(words[..n], bit)| {
      i := AfterAt(words[..n], bit, k);
      assert words[..n][..i] == words[..i];
    } else {
      i := n;
      assert words[n] == [bit] + words[n][1..];
    }
  }

  lemma AfterNoPrefix(words: seq<Word>, bit: bool)
    requires NoPrefix(words)
    ensures NoPrefix(After(words, bit))
  {
    var rest := After(words, bit);
    forall k, l | 0 <= k < |rest| && 0 <= l < |rest| && k != l ensures !(rest[k] <= rest[l]) {
      var i := AfterAt(words, bit, k);
      var j := AfterAt(words, bit, l);
      PrefixUnder(bit, rest[k], rest[l]);
    }
  }

  lemma PrefixUnder(bit: bool, a: Word, b: Word)
    ensures a <= b ==> [bit] + a <= [bit] + b
  {}

  /** Words that are all begun share the code space between the two first bits. */
  lemma {:induction false} Branches(words: seq<Word>, unit: nat)
    requires forall i :: 0 <= i < |words| ==> 0 < |words[i]| <= unit + 1
    ensures var zero, one := After(words, false), After(words, true);
      && (forall k :: 0 <= k < |zero| ==> |zero[k]| <= unit) && (forall k :: 0 <= k < |one| ==> |one[k]| <= unit)
      && Sum(LengthsOf(words), |words|, unit + 1) == Sum(LengthsOf(zero), |zero|, unit) + Sum(LengthsOf(one), |one|, unit)
    decreases |words|
  {
    hide Share, Sum, After;
    if words == [] {
      AfterNothing();
      SumNothing(LengthsOf(words), unit + 1);
      SumNothing(LengthsOf(words), unit);
    } else {
      var n := |words| - 1;
      var w := words[n];
      Branches(words[..n], unit);
      SumLast(words[..n], w, unit + 1);
      assert words == words[..n] + [w];
      SumLast(After(words[..n], w[0]), w[1..], unit);
      AfterLast(words, w[0]);
      AfterLast(words, !w[0]);
      ShareLess(unit, |w|);
    }
  }

  lemma AfterNothing()
    ensures After([], false) == [] == After([], true)
  {}

  lemma AfterLast(words: seq<Word>, bit: bool)
    requires |words| > 0
    ensures var n, w := |words| - 1, words[|words| - 1];
      After(words, bit) == if |w| > 0 && w[0] == bit then After(words[..n], bit) + [w[1..]] else After(words[..n], bit)
  {}

  lemma SumNothing(bits: seq<int>, unit: nat)
    ensures Sum(bits, 0, unit) == 0
  {}

  lemma SumLast(words: seq<Word>, w: Word, unit: nat)
    ensures Sum(LengthsOf(words + [w]), |words| + 1, unit) == Sum(LengthsOf(words), |words|, unit) + Share(unit, |w|)
  {
    SumSame(LengthsOf(words + [w]), LengthsOf(words), |words|, unit);
  }

  lemma ShareLess(unit: nat, b: nat)
    requires 0 < b <= unit + 1
    ensures Share(unit + 1, b) == Share(unit, b - 1)
  {}

  /** Kraft's inequality, for words of any prefix code. */
  lemma {:induction false} KraftInequality(words: seq<Word>, unit: nat)
    requires NoPrefix(words) && forall i :: 0 <= i < |words| ==> |words[i]| <= unit
    ensures PrefixCode(LengthsOf(words), unit)
    decreases unit
  {
    hide Share, Pow2;
    if words == [] { return; }
    var first := words[0];
    if e {:trigger words[e]} :| 0 <= e < |words| && words[e] == [] {
      if |words| > 1 { StartsAll(words[if e == 0 then 1 else 0]); }
      SumEmptyWord(unit);
      assert LengthsOf(words) == [0];
    } else if unit > 0 {
      Branches(words, unit - 1);
      AfterNoPrefix(words, false);
      AfterNoPrefix(words, true);
      KraftInequality(After(words, false), unit - 1);
      KraftInequality(After(words, true), unit - 1);
      Pow2Next(unit - 1);
    }
  }

  lemma StartsAll(w: Word)
    ensures [] <= w
  {}

  lemma SumEmptyWord(unit: nat)
    ensures Sum([0], 1, unit) == Pow2(unit)
  {
    assert Sum([0], 0, unit) == 0;
  }

  lemma {:induction false} LongestWord(words: seq<Word>, n: nat) returns (unit: nat)
    requires n <= |words|
    ensures forall i :: 0 <= i < n ==> |words[i]| <= unit
  {
    if n == 0 { return 0; }
    unit := LongestWord(words, n - 1);
    if |words[n - 1]| > unit { unit := |words[n - 1]|; }
  }

  /** Best lengths are best among all prefix codes, written out as words. */
  lemma BestAmongWords(ws: seq<nat>, ds: seq<nat>, words: seq<Word>)
    requires |ws| == |ds| == |words| && Best(ws, ds) && NoPrefix(words)
    ensures Cost(ws, ds) <= Cost(ws, LengthsOf(words))
  {
    hide Cost, PrefixCode;
    var unit := LongestWord(words, |words|);
    KraftInequality(words, unit);
  }
}
