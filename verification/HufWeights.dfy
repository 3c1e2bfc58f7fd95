/** Code lengths as weights (section 4.2.1 of RFC 8878): the last weight is left out
    and found again from the rest. */
module HufWeights {
  import opened Bits
  import opened Counting
  import opened Kraft
  import opened Results
  import opened HufCodes

  /** A symbol with a word of `nb` bits has weight `tableLog + 1 - nb`; 0 is for a
      symbol without one, both ways. */
  function Flip(n: nat, tableLog: nat): (r: nat)
    requires n <= tableLog
    ensures r <= tableLog
  {
    if n == 0 then 0 else tableLog + 1 - n
  }

  ghost predicate UpTo(ns: seq<nat>, tableLog: nat) { forall s :: 0 <= s < |ns| ==> ns[s] <= tableLog }

  function FlipAll(ns: seq<nat>, tableLog: nat): (r: seq<nat>)
    requires UpTo(ns, tableLog)
    ensures |r| == |ns| && UpTo(r, tableLog)
    ensures forall s :: 0 <= s < |ns| ==> r[s] == Flip(ns[s], tableLog)
  {
    seq(|ns|, s requires 0 <= s < |ns| => Flip(ns[s], tableLog))
  }

  lemma FlipTwice(ns: seq<nat>, tableLog: nat)
    requires UpTo(ns, tableLog)
    ensures FlipAll(FlipAll(ns, tableLog), tableLog) == ns
  {}

  /** `(1 << w) >> 1`. */
  function Half(w: nat): nat { if w == 0 then 0 else Pow2(w - 1) }

  function WeightTotal(ws: seq<nat>, k: nat): nat
    requires k <= |ws|
  {
    if k == 0 then 0 else WeightTotal(ws, k - 1) + Half(ws[k - 1])
  }

  /** The weights add up as the shares of the code words do. */
  lemma {:induction false} TotalIsSum(nb: seq<nat>, tableLog: nat, k: nat)
    requires UpTo(nb, tableLog) && k <= |nb|
    ensures WeightTotal(FlipAll(nb, tableLog), k) == Sum(Longer(nb, 0), k, tableLog)
    decreases k
  {
    if k > 0 { TotalIsSum(nb, tableLog, k - 1); }
  }

  lemma {:induction false} TotalSame(a: seq<nat>, b: seq<nat>, k: nat)
    requires k <= |a| && k <= |b| && forall i :: 0 <= i < k ==> a[i] == b[i]
    ensures WeightTotal(a, k) == WeightTotal(b, k)
  {
    if k > 0 { TotalSame(a, b, k - 1); }
  }

  /** A complete code whose longest word has `tableLog` bits and whose last symbol
      is in use. */
  ghost predicate Describable(nb: seq<nat>, tableLog: nat)
  {
    && |nb| >= 2 && Complete(nb, tableLog) && 1 <= tableLog <= HUF_TABLELOG_MAX
    && nb[|nb| - 1] > 0 && exists s :: 0 <= s < |nb| && nb[s] == tableLog
  }

  // ----- what a reader makes of the weights -----

  datatype Stats = Stats(weights: seq<nat>, tableLog: nat)

  /** The weights completed by the last one; the total must be a power of two, and
      the longest words come in pairs. */
  function StatsOf(ws: seq<nat>): (r: Result<Stats>)
  {
    var total := WeightTotal(ws, |ws|);
    if (exists s :: 0 <= s < |ws| && ws[s] > HUF_TABLELOG_MAX) || total == 0 then Err(CorruptionDetected)
    else
      var tableLog := Highbit(total) + 1;
      if tableLog > HUF_TABLELOG_MAX then Err(CorruptionDetected)
      else
        RestPositive(total);
        var rest := Pow2(tableLog) - total;
        var last := Highbit(rest) + 1;
        var all := ws + [last];
        if Pow2(Highbit(rest)) != rest || Rank(all, |all|, 1) < 2 || Rank(all, |all|, 1) % 2 == 1 then Err(CorruptionDetected)
        else Ok(Stats(all, tableLog))
  }

  lemma RestPositive(total: nat)
    requires total > 0
    ensures total < Pow2(Highbit(total) + 1)
  {}

  /** The longest words of a complete code are even in number, and there are some. */
  lemma PairsOfLongest(nb: seq<nat>, tableLog: nat)
    requires Describable(nb, tableLog)
    ensures Rank(nb, |nb|, tableLog) >= 2 && Rank(nb, |nb|, tableLog) % 2 == 0
  {
    hide Sum, Pow2;
    FirstRank(nb, tableLog);
    Halve(nb, tableLog, tableLog, 0);
    RankNone(nb, |nb|, tableLog);
  }

  lemma {:induction false} FlipRank(nb: seq<nat>, tableLog: nat, k: nat)
    requires UpTo(nb, tableLog) && k <= |nb| && tableLog >= 1
    ensures Rank(FlipAll(nb, tableLog), k, 1) == Rank(nb, k, tableLog)
    decreases k
  {
    if k > 0 { FlipRank(nb, tableLog, k - 1); }
  }

  /** The omitted weight is found, and with it the table log. */
  lemma LastWeightFound(nb: seq<nat>, tableLog: nat)
    requires Describable(nb, tableLog)
    ensures UpTo(nb, tableLog)
    ensures StatsOf(FlipAll(nb, tableLog)[..|nb| - 1]) == Ok(Stats(FlipAll(nb, tableLog), tableLog))
  {
    hide Sum, Pow2, Highbit, StatsOf, Rank, Half;
    var all, n := FlipAll(nb, tableLog), |nb| - 1;
    var ws, last := all[..n], all[n];
    TotalIsSum(nb, tableLog, |nb|);
    TotalSame(ws, all, n);
    PairsOfLongest(nb, tableLog);
    FlipRank(nb, tableLog, |nb|);
    assert ws + [last] == all;
    HalfOf(last);
    Numbers(WeightTotal(ws, n), tableLog, last);
    StatsAre(ws, tableLog, last);
  }

  lemma HalfOf(w: nat)
    requires w > 0
    ensures Half(w) == Pow2(w - 1)
  {}

  lemma Numbers(total: nat, tableLog: nat, last: nat)
    requires 1 <= last <= tableLog && total + Pow2(last - 1) == Pow2(tableLog)
    ensures total > 0 && Highbit(total) == tableLog - 1 && Highbit(Pow2(tableLog) - total) == last - 1
  {
    hide Pow2, Highbit;
    Pow2Mono(last - 1, tableLog - 1);
    Pow2Next(tableLog - 1);
    HighbitUnique(total, tableLog - 1);
    Pow2Next(last - 1);
    HighbitUnique(Pow2(last - 1), last - 1);
  }

  lemma StatsAre(ws: seq<nat>, tableLog: nat, last: nat)
    requires 1 <= last <= tableLog <= HUF_TABLELOG_MAX && forall s :: 0 <= s < |ws| ==> ws[s] <= HUF_TABLELOG_MAX
    requires var total := WeightTotal(ws, |ws|);
      total > 0 && total + Pow2(last - 1) == Pow2(tableLog)
      && Highbit(total) == tableLog - 1 && Highbit(Pow2(tableLog) - total) == last - 1
    requires Rank(ws + [last], |ws| + 1, 1) >= 2 && Rank(ws + [last], |ws| + 1, 1) % 2 == 0
    ensures StatsOf(ws) == Ok(Stats(ws + [last], tableLog))
  {
    hide Pow2, Highbit, WeightTotal, Rank;
  }

  /** The canonical words are determined by the lengths. */
  lemma SameWords(nb: seq<nat>, unit: nat, vals: seq<nat>, others: seq<nat>, s: nat)
    requires Canonical(nb, unit, vals) && Canonical(nb, unit, others) && s < |nb| && nb[s] > 0
    ensures vals[s] == others[s]
  {
    hide Shl, Start;
    assert IsCode(nb, unit, s, vals[s]) && IsCode(nb, unit, s, others[s]);
    ShrShl(vals[s], unit - nb[s]);
    ShrShl(others[s], unit - nb[s]);
  }

  /** ... and so is the table. */
  lemma SameTable(nb: seq<nat>, unit: nat, vals: seq<nat>, others: seq<nat>, elts: seq<nat>, more: seq<nat>)
    requires Canonical(nb, unit, vals) && Canonical(nb, unit, others)
    requires IsTable(elts, nb, vals) && IsTable(more, nb, others)
    ensures elts == more
  {
    hide Canonical;
    forall s | 0 <= s < |nb| ensures elts[s] == more[s] {
      if nb[s] > 0 { SameWords(nb, unit, vals, others, s); }
    }
  }

  lemma {:induction false} HalfMember(ws: seq<nat>, k: nat, s: nat)
    requires s < k <= |ws|
    ensures Half(ws[s]) <= WeightTotal(ws, k)
  {
    if s < k - 1 { HalfMember(ws, k - 1, s); }
  }

  /** Accepted weights fill the code space, whatever bytes they came from. */
  lemma StatsFill(ws: seq<nat>)
    requires StatsOf(ws).Ok?
    ensures var s := StatsOf(ws).value;
      && |s.weights| == |ws| + 1 && s.weights[..|ws|] == ws && 1 <= s.tableLog <= HUF_TABLELOG_MAX
      && UpTo(s.weights, s.tableLog) && WeightTotal(s.weights, |s.weights|) == Pow2(s.tableLog)
  {
    hide Pow2, Highbit;
    var s := StatsOf(ws).value;
    var total, all := WeightTotal(ws, |ws|), s.weights;
    RestPositive(total);
    var rest := Pow2(s.tableLog) - total;
    TotalSame(all, ws, |ws|);
    HalfOf(all[|ws|]);
    Pow2Next(s.tableLog - 1);
    if Highbit(rest) >= s.tableLog { Pow2Mono(s.tableLog, Highbit(rest)); }
    forall i | 0 <= i < |all| ensures all[i] <= s.tableLog {
      if i < |ws| && ws[i] > s.tableLog {
        HalfMember(ws, |ws|, i);
        HalfOf(ws[i]);
        Pow2Mono(s.tableLog, ws[i] - 1);
      }
    }
  }

  /** ... so the lengths they stand for are a complete code. */
  lemma FlippedComplete(weights: seq<nat>, tableLog: nat)
    requires UpTo(weights, tableLog) && WeightTotal(weights, |weights|) == Pow2(tableLog)
    ensures Complete(FlipAll(weights, tableLog), tableLog)
  {
    var nb := FlipAll(weights, tableLog);
    FlipTwice(weights, tableLog);
    TotalIsSum(nb, tableLog, |nb|);
  }
}
