/** Counting the occurrences of a value in a prefix of a sequence, and adding prefixes
    up. */
module Counting {

  /** How many of the first `n` elements are `s`. */
  function Rank(xs: seq<int>, n: nat, s: int): (r: nat)
    requires n <= |xs|
    ensures r <= n
  {
    if n == 0 then 0 else Rank(xs, n - 1, s) + (if xs[n - 1] == s then 1 else 0)
  }

  lemma {:induction false} RankMono(xs: seq<int>, m: nat, n: nat, s: int)
    requires m <= n <= |xs|
    ensures Rank(xs, m, s) <= Rank(xs, n, s)
    ensures m < n && xs[m] == s ==> Rank(xs, m, s) < Rank(xs, n, s)
    decreases n
  {
    if m < n { RankMono(xs, m, n - 1, s); }
  }

  lemma {:induction false} RankUpdate(xs: seq<int>, n: nat, s: int, at: nat, x: int)
    requires n <= |xs| && at < |xs|
    ensures Rank(xs[at := x], n, s) ==
            if at < n then Rank(xs, n, s) + (if x == s then 1 else 0) - (if xs[at] == s then 1 else 0)
            else Rank(xs, n, s)
    decreases n
  {
    if n > 0 { RankUpdate(xs, n - 1, s, at, x); }
  }

  lemma {:induction false} RankNone(xs: seq<int>, n: nat, s: int)
    requires n <= |xs|
    ensures Rank(xs, n, s) == 0 <==> forall u :: 0 <= u < n ==> xs[u] != s
  {
    if n > 0 { RankNone(xs, n - 1, s); }
  }

  lemma {:induction false} RankAll(n: nat, s: int, k: nat)
    requires k <= n
    ensures Rank(seq(n, _ => s), k, s) == k
  {
    if k > 0 { RankAll(n, s, k - 1); }
  }

  /** The position of the occurrence of `s` with a given rank. */
  lemma {:induction false} PositionOfRank(xs: seq<int>, n: nat, s: int, r: nat) returns (u: nat)
    requires n <= |xs| && r < Rank(xs, n, s)
    ensures u < n && xs[u] == s && Rank(xs, u, s) == r
    decreases n
  {
    if xs[n - 1] == s && Rank(xs, n - 1, s) == r {
      u := n - 1;
    } else {
      u := PositionOfRank(xs, n - 1, s, r);
    }
  }

  lemma RankStart(xs: seq<int>)
    ensures forall s: int :: Rank(xs, 0, s) == 0
  {}

  lemma RankNext(xs: seq<int>, n: nat)
    requires n < |xs|
    ensures forall s: int :: Rank(xs, n + 1, s) == Rank(xs, n, s) + (if xs[n] == s then 1 else 0)
  {}

  lemma {:induction false} RankSame(a: seq<int>, b: seq<int>, n: nat, s: int)
    requires n <= |a| && n <= |b| && forall i :: 0 <= i < n ==> a[i] == b[i]
    ensures Rank(a, n, s) == Rank(b, n, s)
  {
    if n > 0 { RankSame(a, b, n - 1, s); }
  }

  /** The sum of the first `k` elements. */
  function SumOf(xs: seq<nat>, k: nat): nat
    requires k <= |xs|
  {
    if k == 0 then 0 else SumOf(xs, k - 1) + xs[k - 1]
  }

  lemma {:induction false} SumOfSame(a: seq<nat>, b: seq<nat>, k: nat)
    requires k <= |a| && k <= |b| && forall i :: 0 <= i < k ==> a[i] == b[i]
    ensures SumOf(a, k) == SumOf(b, k)
  {
    if k > 0 { SumOfSame(a, b, k - 1); }
  }

  lemma {:induction false} SumOfUpdate(xs: seq<nat>, k: nat, i: nat, x: nat)
    requires k <= |xs| && i < |xs|
    ensures SumOf(xs[i := x], k) == SumOf(xs, k) + (if i < k then x - xs[i] else 0)
    decreases k
  {
    if k > 0 { SumOfUpdate(xs, k - 1, i, x); }
  }

  lemma {:induction false} SumOfZero(xs: seq<nat>, k: nat)
    requires k <= |xs| && forall i :: 0 <= i < k ==> xs[i] == 0
    ensures SumOf(xs, k) == 0
  {
    if k > 0 { SumOfZero(xs, k - 1); }
  }

  lemma {:induction false} SumOfMember(xs: seq<nat>, k: nat, i: nat)
    requires i < k <= |xs|
    ensures xs[i] <= SumOf(xs, k)
  {
    if i < k - 1 { SumOfMember(xs, k - 1, i); }
  }

  lemma {:induction false} SumOfMono(xs: seq<nat>, m: nat, n: nat)
    requires m <= n <= |xs|
    ensures SumOf(xs, m) <= SumOf(xs, n)
    decreases n
  {
    if m < n { SumOfMono(xs, m, n - 1); }
  }

  lemma {:induction false} SumOfAppend(a: seq<nat>, b: seq<nat>, k: nat)
    requires k <= |b|
    ensures SumOf(a + b, |a| + k) == SumOf(a, |a|) + SumOf(b, k)
    decreases k
  {
    if k == 0 { SumOfSame(a + b, a, |a|); } else { SumOfAppend(a, b, k - 1); }
  }
}
