/**
 Ranks of a bit sequence. Sliding compaction sends a marked word to its rank: the number of
 marked words below it.
 */
module Sliding {

  function Rank(bits: seq<bool>, n: nat): (r: nat)
    requires n <= |bits|
    ensures r <= n
  {
    if n == 0 then 0 else Rank(bits, n - 1) + (if bits[n - 1] then 1 else 0)
  }

  /** The position of the marked word with `r` marked words below it. */
  function Select(bits: seq<bool>, n: nat, r: nat): (i: nat)
    requires n <= |bits| && r < Rank(bits, n)
    ensures i < n && bits[i] && Rank(bits, i) == r
  {
    if bits[n - 1] && Rank(bits, n - 1) == r then n - 1 else Select(bits, n - 1, r)
  }

  lemma {:induction false} RankMonotone(bits: seq<bool>, a: nat, b: nat)
    requires a <= b <= |bits|
    ensures Rank(bits, a) <= Rank(bits, b) <= Rank(bits, a) + (b - a)
    ensures a < b && bits[a] ==> Rank(bits, a) < Rank(bits, b)
    ensures Rank(bits, 0) == 0
    decreases b
  {
    if a < b {
      RankMonotone(bits, a, b - 1);
    }
  }

  lemma {:induction false} RankOfRun(bits: seq<bool>, a: nat, b: nat)
    requires a <= b <= |bits|
    requires forall i :: a <= i < b ==> bits[i]
    ensures Rank(bits, b) == Rank(bits, a) + (b - a)
  {
    if a < b {
      RankOfRun(bits, a, b - 1);
    }
  }

  lemma {:induction false} RankOfGap(bits: seq<bool>, a: nat, b: nat)
    requires a <= b <= |bits|
    requires forall i :: a <= i < b ==> !bits[i]
    ensures Rank(bits, b) == Rank(bits, a)
  {
    if a < b {
      RankOfGap(bits, a, b - 1);
    }
  }

  /** A rank is the position itself exactly when everything below is marked. */
  lemma {:induction false} RankIsPositionIff(bits: seq<bool>, n: nat)
    requires n <= |bits|
    ensures Rank(bits, n) == n <==> forall i :: 0 <= i < n ==> bits[i]
    decreases n
  {
    if n > 0 {
      RankIsPositionIff(bits, n - 1);
      RankMonotone(bits, n - 1, n);
    }
  }

  /** Ranks order marked positions exactly as the positions are ordered. */
  lemma RankOrder(bits: seq<bool>, a: nat, b: nat)
    requires a < |bits| && b < |bits| && bits[a] && bits[b]
    ensures Rank(bits, a) < Rank(bits, b) <==> a < b
    ensures Rank(bits, a) == Rank(bits, b) <==> a == b
  {
    if a < b {
      RankMonotone(bits, a, b);
    } else if b < a {
      RankMonotone(bits, b, a);
    }
  }

  lemma SelectOfRank(bits: seq<bool>, i: nat)
    requires i < |bits| && bits[i]
    ensures Rank(bits, i) < Rank(bits, |bits|) && Select(bits, |bits|, Rank(bits, i)) == i
  {
    RankMonotone(bits, i, |bits|);
    RankOrder(bits, i, Select(bits, |bits|, Rank(bits, i)));
  }
}
