/** Positions of the servers of a stripe list: the members of a set in ascending order. */
module StripeRank {

  /** How many members of the set are below s. */
  ghost function Rank(S: set<nat>, s: nat): nat {
    if s == 0 then 0 else Rank(S, s - 1) + if s - 1 in S then 1 else 0
  }

  lemma RankNext(S: set<nat>, s: nat)
    ensures Rank(S, s + 1) == Rank(S, s) + if s in S then 1 else 0
  {
  }

  lemma {:induction false} RankOrder(S: set<nat>, s: nat, t: nat)
    requires s < t
    ensures Rank(S, s) <= Rank(S, t)
    ensures s in S ==> Rank(S, s) < Rank(S, t)
  {
    if s < t - 1 {
      RankOrder(S, s, t - 1);
    }
  }

  /** Different members have different ranks. */
  lemma RankInjective(S: set<nat>, s: nat, t: nat)
    requires s in S && t in S && Rank(S, s) == Rank(S, t)
    ensures s == t
  {
    if s < t {
      RankOrder(S, s, t);
    } else if t < s {
      RankOrder(S, t, s);
    }
  }

  /** Every rank below the total is taken. */
  lemma {:induction false} RankReached(S: set<nat>, bound: nat, c: nat) returns (s: nat)
    requires c < Rank(S, bound)
    ensures s < bound && s in S && Rank(S, s) == c
  {
    if c < Rank(S, bound - 1) {
      s := RankReached(S, bound - 1, c);
    } else {
      s := bound - 1;
    }
  }

  lemma {:induction false} RankAdded(S: set<nat>, x: nat, t: nat)
    requires x !in S
    ensures Rank(S + {x}, t) == Rank(S, t) + if x < t then 1 else 0
  {
    if t > 0 {
      RankAdded(S, x, t - 1);
    }
  }

  /** All members counted. */
  lemma {:induction false} RankTotal(S: set<nat>, bound: nat)
    requires forall s :: s in S ==> s < bound
    ensures Rank(S, bound) == |S|
  {
    if S == {} {
      RankEmpty(bound);
    } else {
      var x :| x in S;
      RankTotal(S - {x}, bound);
      RankAdded(S - {x}, x, bound);
      assert S - {x} + {x} == S;
    }
  }

  lemma {:induction false} RankEmpty(bound: nat)
    ensures Rank({}, bound) == 0
  {
    if bound > 0 {
      RankEmpty(bound - 1);
    }
  }

  /** A server is left as long as fewer are taken than exist. */
  lemma SomeLeft(S: set<nat>, bound: nat) returns (s: nat)
    requires |S| < bound && forall s :: s in S ==> s < bound
    ensures s < bound && s !in S
  {
    RankTotal(S, bound);
    if forall s: nat :: s < bound ==> s in S {
      AllRanked(S, bound);
    }
    s :| s < bound && s !in S;
  }

  lemma {:induction false} AllRanked(S: set<nat>, bound: nat)
    requires forall s: nat :: s < bound ==> s in S
    ensures Rank(S, bound) == bound
  {
    if bound > 0 {
      AllRanked(S, bound - 1);
    }
  }
}
