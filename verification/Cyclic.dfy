/** Places of an array that is used cyclically. */
module Cyclic {

  /** How many steps it takes from place a to place j of n. */
  function Dist(n: nat, a: nat, j: nat): (d: nat)
    requires a < n && j < n
    ensures d < n
  {
    if j >= a then j - a else j - a + n
  }

  /** The place behind i. */
  function Next(n: nat, i: nat): (r: nat)
    requires i < n
    ensures r < n
  {
    if i + 1 == n then 0 else i + 1
  }

  /** The place i steps behind a head. */
  function Place(head: nat, i: nat, size: nat): nat
    requires head < size && i < size
  {
    if head + i < size then head + i else head + i - size
  }

  lemma NextDist(n: nat, a: nat, i: nat, e: nat)
    requires a < n && i < n && e < n && i != e
    requires Dist(n, a, i) + Dist(n, i, e) == Dist(n, a, e)
    ensures Dist(n, a, Next(n, i)) == Dist(n, a, i) + 1
    ensures Dist(n, Next(n, i), e) == Dist(n, i, e) - 1
  {
  }

  lemma DistInjective(n: nat, a: nat, i: nat, j: nat)
    requires a < n && i < n && j < n && Dist(n, a, i) == Dist(n, a, j)
    ensures i == j
  {
  }
}
