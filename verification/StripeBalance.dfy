/** The load-aware greedy choice keeps the servers' loads within k of each other. */
module StripeBalance {
  import opened StripeRank

  /** pickMin prefers the smaller load, then the smaller count, then the server that comes first. */
  ghost predicate Before(load: seq<nat>, count: seq<nat>, a: nat, b: nat)
    requires a < |load| == |count| && b < |load|
  {
    load[a] < load[b] || (load[a] == load[b] && (count[a] < count[b] || (count[a] == count[b] && a < b)))
  }

  /** Exactly one of two servers comes before the other, and it is not the one with the greater load or count. */
  lemma BeforeIs(load: seq<nat>, count: seq<nat>, a: nat, b: nat)
    requires a < |load| == |count| && b < |load| && a != b
    ensures Before(load, count, a, b) <==> !Before(load, count, b, a)
    ensures load[a] < load[b] ==> Before(load, count, a, b)
    ensures load[a] == load[b] && count[a] < count[b] ==> Before(load, count, a, b)
    ensures load[a] == load[b] && count[a] == count[b] ==> (Before(load, count, a, b) <==> a < b)
  {
  }

  /** What a server's load grows by when the list with these data and parity servers is added. */
  ghost function Share(D: set<nat>, P: set<nat>, k: nat, s: nat): nat {
    if s in D then 1 else if s in P then k else 0
  }

  ghost predicate Balanced(load: seq<nat>, k: nat) {
    forall a, b :: 0 <= a < |load| && 0 <= b < |load| ==> load[a] <= load[b] + k
  }

  /** The parity servers were picked before the data servers, and these before the rest. */
  ghost predicate Greedy(load: seq<nat>, count: seq<nat>, D: set<nat>, P: set<nat>)
    requires |count| == |load|
  {
    && (forall a: nat, b: nat :: a < |load| && b < |load| && a in P && b !in P ==> Before(load, count, a, b))
    && (forall a: nat, b: nat :: a < |load| && b < |load| && a in D && b !in P && b !in D ==>
          Before(load, count, a, b))
  }

  lemma GreedyStart(load: seq<nat>, count: seq<nat>)
    requires |count| == |load|
    ensures Greedy(load, count, {}, {})
  {
  }

  /** Picking the least unused server keeps the choice greedy: a parity server first, */
  lemma GreedyParity(load: seq<nat>, count: seq<nat>, P: set<nat>, r: nat)
    requires |count| == |load| && r < |load| && Greedy(load, count, {}, P)
    requires forall s: nat :: s < |load| && s !in P && s != r ==> Before(load, count, r, s)
    ensures Greedy(load, count, {}, P + {r})
  {
    hide Before;
  }

  /** then a data server. */
  lemma GreedyData(load: seq<nat>, count: seq<nat>, D: set<nat>, P: set<nat>, r: nat)
    requires |count| == |load| && r < |load| && Greedy(load, count, D, P)
    requires forall s: nat :: s < |load| && s !in D && s !in P && s != r ==> Before(load, count, r, s)
    ensures Greedy(load, count, D + {r}, P)
  {
    hide Before;
  }

  lemma GreedyKeepsBalance(load: seq<nat>, count: seq<nat>, now: seq<nat>, D: set<nat>, P: set<nat>, k: nat)
    requires k > 0 && |now| == |count| == |load| && Balanced(load, k) && D !! P && Greedy(load, count, D, P)
    requires forall s :: 0 <= s < |load| ==> now[s] == load[s] + Share(D, P, k, s)
    ensures Balanced(now, k)
  {
    forall a, b | 0 <= a < |load| && 0 <= b < |load| ensures now[a] <= now[b] + k {
      if b !in P && (a in P || (a in D && b !in D)) {
        assert Before(load, count, a, b);
      }
    }
  }

  /** The greedy choice leaves no room: there is one set of parity servers and one set of data servers. */
  lemma GreedyIsUnique(load: seq<nat>, count: seq<nat>, D: set<nat>, P: set<nat>, D': set<nat>, P': set<nat>)
    requires |count| == |load| && Greedy(load, count, D, P) && Greedy(load, count, D', P')
    requires |P| == |P'| && |D| == |D'| && D !! P && D' !! P'
    requires forall s :: s in D || s in P || s in D' || s in P' ==> s < |load|
    ensures P == P' && D == D'
  {
    if !(P <= P') {
      var a :| a in P && a !in P';
      forall b | b in P'
        ensures b in P
      {
        NotBoth(load, count, a, b);
      }
    }
    SameSize(P, P');
    if !(D <= D') {
      var a :| a in D && a !in D';
      forall b | b in D'
        ensures b in D
      {
        NotBoth(load, count, a, b);
      }
    }
    SameSize(D, D');
  }

  lemma NotBoth(load: seq<nat>, count: seq<nat>, a: nat, b: nat)
    requires a < |load| == |count| && b < |load|
    ensures !(Before(load, count, a, b) && Before(load, count, b, a))
  {
  }

  lemma SameSize(S: set<nat>, T: set<nat>)
    requires |S| == |T| && (S <= T || T <= S)
    ensures S == T
  {
    assert |T - S| == |T| - |S * T| && |S - T| == |S| - |S * T|;
    if S <= T {
      assert S * T == S;
      assert T == S + (T - S);
    }
    if T <= S {
      assert S * T == T;
      assert S == T + (S - T);
    }
  }

  // ----- what the lists so far have charged their servers with -----

  /** Over the first i lists: `weight` for each in which the server keeps parity, 1 for each in which it keeps data. */
  ghost function ChargedTo(D: seq<set<nat>>, P: seq<set<nat>>, weight: nat, i: nat, s: nat): nat
    requires i <= |D| && i <= |P|
  {
    if i == 0 then 0 else ChargedTo(D, P, weight, i - 1, s) + Share(D[i - 1], P[i - 1], weight, s)
  }

  ghost function Charges(D: seq<set<nat>>, P: seq<set<nat>>, weight: nat, i: nat, numServers: nat): (r: seq<nat>)
    requires i <= |D| && i <= |P|
    ensures |r| == numServers && forall s :: 0 <= s < numServers ==> r[s] == ChargedTo(D, P, weight, i, s)
  {
    seq(numServers, (s: nat) => ChargedTo(D, P, weight, i, s))
  }

  lemma {:induction false} ChargedToPrefix(D: seq<set<nat>>, P: seq<set<nat>>, D': seq<set<nat>>, P': seq<set<nat>>,
                                           weight: nat, i: nat, s: nat)
    requires i <= |D| && i <= |P| && i <= |D'| && i <= |P'|
    requires forall j :: 0 <= j < i ==> D[j] == D'[j] && P[j] == P'[j]
    ensures ChargedTo(D, P, weight, i, s) == ChargedTo(D', P', weight, i, s)
  {
    if i > 0 {
      ChargedToPrefix(D, P, D', P', weight, i - 1, s);
    }
  }

  lemma ChargesPrefix(D: seq<set<nat>>, P: seq<set<nat>>, D': seq<set<nat>>, P': seq<set<nat>>,
                      weight: nat, i: nat, numServers: nat)
    requires i <= |D| && i <= |P| && i <= |D'| && i <= |P'|
    requires forall j :: 0 <= j < i ==> D[j] == D'[j] && P[j] == P'[j]
    ensures Charges(D, P, weight, i, numServers) == Charges(D', P', weight, i, numServers)
  {
    forall s: nat | s < numServers
      ensures ChargedTo(D, P, weight, i, s) == ChargedTo(D', P', weight, i, s)
    {
      ChargedToPrefix(D, P, D', P', weight, i, s);
    }
  }

  /** List i was chosen greedily after the lists before it: k for a parity server, one for a data server. */
  ghost predicate GreedyList(D: seq<set<nat>>, P: seq<set<nat>>, k: nat, i: nat, numServers: nat)
    requires i < |D| && i < |P|
  {
    Greedy(Charges(D, P, k, i, numServers), Charges(D, P, 1, i, numServers), D[i], P[i])
  }

  lemma GreedyListPrefix(D: seq<set<nat>>, P: seq<set<nat>>, D': seq<set<nat>>, P': seq<set<nat>>, k: nat, i: nat,
                         numServers: nat)
    requires i < |D| && i < |P| && i < |D'| && i < |P'|
    requires forall j :: 0 <= j <= i ==> D[j] == D'[j] && P[j] == P'[j]
    ensures GreedyList(D, P, k, i, numServers) == GreedyList(D', P', k, i, numServers)
  {
    ChargesPrefix(D, P, D', P', k, i, numServers);
    ChargesPrefix(D, P, D', P', 1, i, numServers);
  }

  /** All lists are determined by the numbers of lists, servers, data and parity chunks. */
  lemma {:induction false} PlacementIsUnique(D: seq<set<nat>>, P: seq<set<nat>>, D': seq<set<nat>>, P': seq<set<nat>>,
                                             k: nat, i: nat, numServers: nat)
    requires i <= |D| && i <= |P| && i <= |D'| && i <= |P'|
    requires forall j: nat :: j < i ==> GreedyList(D, P, k, j, numServers) && GreedyList(D', P', k, j, numServers)
    requires forall j :: 0 <= j < i ==> |D[j]| == |D'[j]| && |P[j]| == |P'[j]| && D[j] !! P[j] && D'[j] !! P'[j]
    requires forall j, s :: 0 <= j < i && (s in D[j] || s in P[j] || s in D'[j] || s in P'[j]) ==> s < numServers
    ensures D[..i] == D'[..i] && P[..i] == P'[..i]
  {
    hide Greedy, Charges;
    if i > 0 {
      var last := i - 1;
      PlacementIsUnique(D, P, D', P', k, last, numServers);
      assert forall j :: 0 <= j < last ==> D[j] == D[..last][j] && D'[j] == D'[..last][j];
      assert forall j :: 0 <= j < last ==> P[j] == P[..last][j] && P'[j] == P'[..last][j];
      ChargesPrefix(D, P, D', P', k, last, numServers);
      ChargesPrefix(D, P, D', P', 1, last, numServers);
      assert GreedyList(D, P, k, last, numServers) && GreedyList(D', P', k, last, numServers);
      GreedyIsUnique(Charges(D, P, k, last, numServers), Charges(D, P, 1, last, numServers), D[last], P[last], D'[last],
                     P'[last]);
      assert D[..i] == D[..last] + [D[last]] && D'[..i] == D'[..last] + [D'[last]];
      assert P[..i] == P[..last] + [P[last]] && P'[..i] == P'[..last] + [P'[last]];
    }
  }

  /** Each of the first i lists was chosen greedily, and every server is charged for exactly these lists. */
  ghost predicate ChosenBy(D: seq<set<nat>>, P: seq<set<nat>>, load: seq<nat>, count: seq<nat>, k: nat, i: nat,
                           numServers: nat)
  {
    && i <= |D| && i <= |P|
    && (forall e: nat :: e < i ==> GreedyList(D, P, k, e, numServers))
    && load == Charges(D, P, k, i, numServers) && count == Charges(D, P, 1, i, numServers)
  }

  lemma GreedyOneMore(D: seq<set<nat>>, P: seq<set<nat>>, load: seq<nat>, count: seq<nat>,
                      D': seq<set<nat>>, P': seq<set<nat>>, load': seq<nat>, count': seq<nat>,
                      k: nat, i: nat, numServers: nat)
    requires i < |D'| == |P'| == |D| == |P| && D' == D[i := D'[i]] && P' == P[i := P'[i]]
    requires ChosenBy(D, P, load, count, k, i, numServers) && Greedy(load, count, D'[i], P'[i])
    requires |load'| == |count'| == numServers
    requires forall s :: 0 <= s < numServers ==> load'[s] == load[s] + Share(D'[i], P'[i], k, s)
    requires forall s :: 0 <= s < numServers ==> count'[s] == count[s] + Share(D'[i], P'[i], 1, s)
    ensures ChosenBy(D', P', load', count', k, i + 1, numServers)
  {
    hide Greedy, Share;
    ChargesPrefix(D', P', D, P, k, i, numServers);
    ChargesPrefix(D', P', D, P, 1, i, numServers);
    forall e: nat | e < i + 1
      ensures GreedyList(D', P', k, e, numServers)
    {
      if e < i {
        GreedyListPrefix(D, P, D', P', k, e, numServers);
      }
    }
    assert load' == Charges(D', P', k, i + 1, numServers);
    assert count' == Charges(D', P', 1, i + 1, numServers);
  }

  /** The sum of the first t values. */
  ghost function Total(load: seq<nat>, t: nat): nat
    requires t <= |load|
  {
    if t == 0 then 0 else Total(load, t - 1) + load[t - 1]
  }

  lemma {:induction false} TotalZero(load: seq<nat>, t: nat)
    requires t <= |load| && forall s :: 0 <= s < |load| ==> load[s] == 0
    ensures Total(load, t) == 0
  {
    if t > 0 {
      TotalZero(load, t - 1);
    }
  }

  ghost function Times(k: nat, m: nat): nat {
    if m == 0 then 0 else Times(k, m - 1) + k
  }

  lemma {:induction false} TimesIsProduct(k: nat, m: nat)
    ensures Times(k, m) == k * m
  {
    if m > 0 {
      TimesIsProduct(k, m - 1);
      assert k * m == k * (m - 1) + k;
    }
  }

  lemma {:induction false} TotalGrows(load: seq<nat>, now: seq<nat>, D: set<nat>, P: set<nat>, k: nat, t: nat)
    requires t <= |now| == |load| && D !! P
    requires forall s :: 0 <= s < |load| ==> now[s] == load[s] + Share(D, P, k, s)
    ensures Total(now, t) == Total(load, t) + Rank(D, t) + Times(k, Rank(P, t))
  {
    if t > 0 {
      TotalGrows(load, now, D, P, k, t - 1);
    }
  }

  /** A balanced load is at most k above the average, and at most k below it. */
  lemma {:induction false} BalancedNearAverage(load: seq<nat>, k: nat, s: nat, t: nat)
    requires Balanced(load, k) && s < |load| && t <= |load|
    ensures Times(load[s], t) <= Total(load, t) + Times(k, t)
    ensures Total(load, t) <= Times(load[s] + k, t)
  {
    if t > 0 {
      BalancedNearAverage(load, k, s, t - 1);
      assert load[s] <= load[t - 1] + k && load[t - 1] <= load[s] + k;
    }
  }
}
