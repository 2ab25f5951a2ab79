/** Stripe lists: which n of the servers keep the data and parity chunks of a list. */
module StripeLists {
  import opened Bitmasks
  import opened ServerStates
  import opened StripeRank
  import opened StripeBalance

  const UINT32_MAX: nat := 0xFFFF_FFFF

  datatype StripeListIndex = StripeListIndex(listId: nat, stripeId: nat, chunkId: nat, isParity: bool)

  /** The chunk id of server s in a list: data servers in ascending order, then parity servers. */
  ghost function Position(D: set<nat>, P: set<nat>, k: nat, s: nat): nat {
    if s in D then Rank(D, s) else k + Rank(P, s)
  }

  /** k data and n - k parity servers, all different. */
  ghost predicate WellFormed(D: set<nat>, P: set<nat>, k: nat, n: nat, numServers: nat) {
    && k <= n && D !! P && |D| == k && |P| == n - k
    && (forall s :: s in D || s in P ==> s < numServers)
  }

  lemma PositionInRange(D: set<nat>, P: set<nat>, k: nat, n: nat, numServers: nat, s: nat)
    requires WellFormed(D, P, k, n, numServers) && (s in D || s in P)
    ensures Position(D, P, k, s) < n
    ensures Position(D, P, k, s) < k <==> s in D
  {
    RankTotal(D, numServers);
    RankTotal(P, numServers);
    RankOrder(if s in D then D else P, s, numServers);
  }

  /** Two servers of a list have different chunk ids. */
  lemma PositionInjective(D: set<nat>, P: set<nat>, k: nat, n: nat, numServers: nat, s: nat, t: nat)
    requires WellFormed(D, P, k, n, numServers) && (s in D || s in P) && (t in D || t in P)
    requires Position(D, P, k, s) == Position(D, P, k, t)
    ensures s == t
  {
    PositionInRange(D, P, k, n, numServers, s);
    PositionInRange(D, P, k, n, numServers, t);
    RankInjective(if s in D then D else P, s, t);
  }

  lemma PositionDiffers(D: set<nat>, P: set<nat>, k: nat, n: nat, numServers: nat, t: nat)
    requires WellFormed(D, P, k, n, numServers) && (t in D || t in P)
    ensures forall s: nat :: s != t && (s in D || s in P) ==> Position(D, P, k, s) != Position(D, P, k, t)
  {
    forall s: nat | s != t && (s in D || s in P) ensures Position(D, P, k, s) != Position(D, P, k, t) {
      if Position(D, P, k, s) == Position(D, P, k, t) {
        PositionInjective(D, P, k, n, numServers, s, t);
      }
    }
  }

  /** Data servers have the first k chunk ids, parity servers the others, both in ascending order. */
  lemma PositionAscends(D: set<nat>, P: set<nat>, k: nat, n: nat, numServers: nat, s: nat, t: nat)
    requires WellFormed(D, P, k, n, numServers) && (s in D || s in P) && (t in D || t in P)
    ensures Position(D, P, k, s) < Position(D, P, k, t)
            <==> (s in D && t in P) || (s < t && (s in D <==> t in D))
  {
    PositionInRange(D, P, k, n, numServers, s);
    PositionInRange(D, P, k, n, numServers, t);
    if s < t {
      RankOrder(if s in D then D else P, s, t);
    } else if t < s {
      RankOrder(if t in D then D else P, t, s);
    }
  }

  /** Every chunk id belongs to a server of the list. */
  lemma PositionReached(D: set<nat>, P: set<nat>, k: nat, n: nat, numServers: nat, c: nat) returns (s: nat)
    requires WellFormed(D, P, k, n, numServers) && c < n
    ensures s < numServers && (s in D || s in P) && Position(D, P, k, s) == c
  {
    RankTotal(D, numServers);
    RankTotal(P, numServers);
    if c < k {
      s := RankReached(D, numServers, c);
    } else {
      s := RankReached(P, numServers, c - k);
    }
  }

  lemma OneLeft(D: set<nat>, P: set<nat>, bound: nat) returns (s: nat)
    requires D !! P && |D| + |P| < bound && forall s :: s in D || s in P ==> s < bound
    ensures s < bound && s !in D && s !in P
  {
    assert |D + P| == |D| + |P|;
    s := SomeLeft(D + P, bound);
  }

  /** The bit matrix holds these rows. */
  ghost predicate Mirrors(m: BitmaskArray, rows: seq<set<nat>>)
    reads m, m.bitmasks
  {
    && m.Valid() && |rows| == m.count
    && (forall e: nat, s: nat :: e < m.count && s < m.size ==> (m.IsSet(e, s) <==> s in rows[e]))
    && (forall e: nat, s: nat :: e < m.count && s in rows[e] ==> s < m.size)
  }

  lemma MirrorsBound(m: BitmaskArray, rows: seq<set<nat>>, i: nat)
    requires Mirrors(m, rows) && i < m.count
    ensures |rows| == m.count && forall s :: s in rows[i] ==> s < m.size
  {
  }

  lemma {:induction false} TimesMonotone(k: nat, m: nat, m': nat)
    requires m < m'
    ensures Times(k, m) + k <= Times(k, m')
  {
    if m < m' - 1 {
      TimesMonotone(k, m, m' - 1);
    }
  }

  /** Sets a bit and keeps the mirrored rows. */
  method SetBit(m: BitmaskArray, ghost rows: seq<set<nat>>, i: nat, s: nat) returns (ghost now: seq<set<nat>>)
    requires Mirrors(m, rows) && i < m.count && s < m.size
    modifies m.bitmasks
    ensures now == rows[i := rows[i] + {s}] && Mirrors(m, now)
  {
    m.Set(i, s);
    now := rows[i := rows[i] + {s}];
  }

  /**
   * The loads and counts after i lists: each server is charged at most k per list, so nothing wraps around; all
   * loads are within k of each other; every list adds k * (n - k + 1) to the loads and n to the counts.
   */
  ghost predicate LoadsAfter(load: seq<nat>, count: seq<nat>, k: nat, n: nat, i: nat)
    requires k <= n
  {
    && |load| == |count| && Balanced(load, k)
    && (forall s :: 0 <= s < |load| ==> load[s] <= Times(k, i) && count[s] <= i)
    && Total(load, |load|) == Times(Times(k, n - k + 1), i)
    && Total(count, |count|) == Times(n, i)
  }

  lemma LoadsStart(load: seq<nat>, count: seq<nat>, k: nat, n: nat)
    requires k <= n && |load| == |count| && forall s :: 0 <= s < |load| ==> load[s] == count[s] == 0
    ensures LoadsAfter(load, count, k, n, 0)
  {
    TotalZero(load, |load|);
    TotalZero(count, |count|);
  }

  lemma LoadsNext(load: seq<nat>, count: seq<nat>, load': seq<nat>, count': seq<nat>,
                  D: set<nat>, P: set<nat>, k: nat, n: nat, i: nat)
    requires 0 < k <= n && LoadsAfter(load, count, k, n, i) && |load'| == |count'| == |load|
    requires WellFormed(D, P, k, n, |load|) && Greedy(load, count, D, P)
    requires forall s :: 0 <= s < |load| ==>
               load'[s] == load[s] + Share(D, P, k, s) && count'[s] == count[s] + Share(D, P, 1, s)
    ensures LoadsAfter(load', count', k, n, i + 1)
  {
    GreedyKeepsBalance(load, count, load', D, P, k);
    hide Greedy, Balanced, Rank;
    TotalGrows(load, load', D, P, k, |load|);
    TotalGrows(count, count', D, P, 1, |load|);
    RankTotal(D, |load|);
    RankTotal(P, |load|);
    TimesIsProduct(1, n - k);
  }

  /** An unused server; one whose counters have both reached the end of their range is never chosen. */
  ghost predicate Pickable(load: seq<nat>, count: seq<nat>, D: set<nat>, P: set<nat>, s: nat) {
    && s < |load| && s < |count| && s !in D && s !in P
    && (load[s] < UINT32_MAX || count[s] < UINT32_MAX)
  }

  class StripeList {
    const n: nat
    const k: nat
    const numLists: nat
    const numServers: nat
    const data: BitmaskArray
    const parity: BitmaskArray
    const load: array<nat>
    const count: array<nat>
    const lists: array2<Server>
    var servers: seq<Server>
    var generated: bool
    ghost var D: seq<set<nat>>
    ghost var P: seq<set<nat>>

    /** The parts are separate objects of the right sizes. */
    ghost predicate Parts()
      reads this
    {
      && 0 < k <= n <= numServers && numLists * k < UINT32_MAX
      && data.size == parity.size == numServers && data.count == parity.count == numLists
      && data != parity && data.bitmasks != parity.bitmasks
      && load.Length == count.Length == numServers && load != count
      && (load as object) != data.bitmasks && (load as object) != parity.bitmasks
      && (count as object) != data.bitmasks && (count as object) != parity.bitmasks
      && lists.Length0 == numLists && lists.Length1 == n
      && |servers| == numServers && |D| == |P| == numLists
    }

    ghost predicate Bits()
      reads this, data, data.bitmasks, parity, parity.bitmasks
    {
      Parts() && Mirrors(data, D) && Mirrors(parity, P)
    }

    /** Servers below `upto` of list i are entered under their chunk ids. */
    ghost predicate Entered(i: nat, upto: nat)
      requires i < |D| && i < |P|
      reads `D, `P, `servers, lists
    {
      i < lists.Length0 && upto <= |servers| &&
      forall s: nat :: s < upto && (s in D[i] || s in P[i]) ==>
        var c := Position(D[i], P[i], k, s); c < lists.Length1 && lists[i, c] == servers[s]
    }

    ghost predicate Loads(i: nat)
      reads load, count
    {
      load.Length == count.Length == numServers && 0 < k <= n && LoadsAfter(load[..], count[..], k, n, i)
    }

    /** The server with the smallest load and count among these, the first of them; 0 if there is none. */
    method PickMin(listIndex: nat) returns (r: nat)
      requires Bits() && listIndex < numLists
      requires forall s :: 0 <= s < numServers ==> load[s] <= UINT32_MAX && count[s] <= UINT32_MAX
      ensures var L, C, d, p := load[..], count[..], D[listIndex], P[listIndex];
              && ((forall s: nat :: !Pickable(L, C, d, p, s)) ==> r == 0)
              && ((exists s: nat :: Pickable(L, C, d, p, s)) ==>
                    Pickable(L, C, d, p, r)
                    && forall s: nat :: s < numServers && s !in d && s !in p && s != r ==> Before(L, C, r, s))
    {
      hide Lit;
      var index := -1;
      var minLoad, minCount := UINT32_MAX, UINT32_MAX;
      var i := 0;
      while i < numServers
        invariant 0 <= i <= numServers && -1 <= index < i
        invariant index == -1 ==> minLoad == minCount == UINT32_MAX
        invariant index == -1 ==> forall s: nat :: s < i && s !in D[listIndex] && s !in P[listIndex] ==>
                    load[s] == count[s] == UINT32_MAX
        invariant index >= 0 ==> minLoad == load[index] && minCount == count[index]
                                 && index !in D[listIndex] && index !in P[listIndex]
                                 && (minLoad < UINT32_MAX || minCount < UINT32_MAX)
        invariant index >= 0 ==> forall s: nat :: s < i && s !in D[listIndex] && s !in P[listIndex] && s != index ==>
                    Before(load[..], count[..], index, s)
      {
        var inData := data.Check(listIndex, i);
        var inParity := parity.Check(listIndex, i);
        if (load[i] < minLoad || (load[i] == minLoad && count[i] < minCount)) && !inData && !inParity {
          minLoad, minCount, index := load[i], count[i], i;
        }
        i := i + 1;
      }
      if index == -1 {
        return 0;
      }
      assert Pickable(load[..], count[..], D[listIndex], P[listIndex], index);
      return index;
    }

    ghost predicate ChosenGreedily(i: nat)
      reads `D, `P, load, count
    {
      ChosenBy(D, P, load[..], count[..], k, i, numServers)
    }

    /** The list is complete: its servers are chosen and entered. */
    ghost predicate Done(i: nat)
      requires i < |D| && i < |P|
      reads `D, `P, `servers, lists
    {
      WellFormed(D[i], P[i], k, n, numServers) && Entered(i, numServers)
    }

    ghost predicate Valid()
      reads this, data, data.bitmasks, parity, parity.bitmasks, lists
    {
      Bits() && generated && forall i: nat :: i < numLists ==> Done(i)
    }

    /** Picks the n - k parity servers of a list. */
    method PickParity(i: nat)
      requires Bits() && i < numLists && D[i] == P[i] == {}
      requires forall s :: 0 <= s < numServers ==> load[s] < UINT32_MAX && count[s] < UINT32_MAX
      modifies parity.bitmasks, `P
      ensures Bits() && D == old(D) && P == old(P)[i := P[i]] && |P[i]| == n - k
      ensures Greedy(load[..], count[..], D[i], P[i])
    {
      hide Greedy, Before, Lit, Rank, Mirrors;
      GreedyStart(load[..], count[..]);
      var j := 0;
      while j < n - k
        invariant 0 <= j <= n - k && Bits() && P == old(P)[i := P[i]] && |P[i]| == j
        invariant Greedy(load[..], count[..], D[i], P[i])
      {
        MirrorsBound(parity, P, i);
        ghost var left := SomeLeft(P[i], numServers);
        assert Pickable(load[..], count[..], D[i], P[i], left);
        var index := PickMin(i);
        GreedyParity(load[..], count[..], P[i], index);
        P := SetBit(parity, P, i, index);
        j := j + 1;
      }
    }

    /** Picks its k data servers. */
    method PickData(i: nat)
      requires Bits() && i < numLists && D[i] == {} && |P[i]| == n - k
      requires forall s :: 0 <= s < numServers ==> load[s] < UINT32_MAX && count[s] < UINT32_MAX
      requires Greedy(load[..], count[..], D[i], P[i])
      modifies data.bitmasks, `D
      ensures Bits() && P == old(P) && D == old(D)[i := D[i]] && WellFormed(D[i], P[i], k, n, numServers)
      ensures Greedy(load[..], count[..], D[i], P[i])
    {
      hide Greedy, Before, Lit, Rank, Mirrors;
      MirrorsBound(data, D, i);
      MirrorsBound(parity, P, i);
      var j := 0;
      while j < k
        invariant 0 <= j <= k && Bits() && D == old(D)[i := D[i]] && |D[i]| == j && D[i] !! P[i]
        invariant Greedy(load[..], count[..], D[i], P[i])
      {
        MirrorsBound(data, D, i);
        ghost var left := OneLeft(D[i], P[i], numServers);
        assert Pickable(load[..], count[..], D[i], P[i], left);
        var index := PickMin(i);
        GreedyData(load[..], count[..], D[i], P[i], index);
        D := SetBit(data, D, i, index);
        j := j + 1;
      }
      MirrorsBound(data, D, i);
    }

    /** Writes server j at its position c, which no earlier server has. */
    method Enter(i: nat, j: nat, c: nat)
      requires Parts() && i < numLists == |D| == |P| && j < numServers && WellFormed(D[i], P[i], k, n, numServers)
      requires (j in D[i] || j in P[i]) && c == Position(D[i], P[i], k, j) && Entered(i, j)
      modifies lists
      ensures Entered(i, j + 1)
      ensures forall e: nat, c: nat :: e < numLists && e != i && c < n ==> lists[e, c] == old(lists[e, c])
    {
      PositionInRange(D[i], P[i], k, n, numServers, j);
      PositionDiffers(D[i], P[i], k, n, numServers, j);
      hide Position, WellFormed;
      lists[i, c] := servers[j];
    }

    /** Enters server j, if it belongs to list i, at the next data or parity position. */
    method PlaceServer(i: nat, j: nat, dataCount: nat, parityCount: nat)
      returns (inData: bool, inParity: bool, dataCount': nat, parityCount': nat)
      requires Bits() && i < numLists && j < numServers && WellFormed(D[i], P[i], k, n, numServers)
      requires dataCount == Rank(D[i], j) && parityCount == Rank(P[i], j) && Entered(i, j)
      modifies lists
      ensures dataCount' == Rank(D[i], j + 1) && parityCount' == Rank(P[i], j + 1) && Entered(i, j + 1)
      ensures inData == (j in D[i]) && inParity == (j in P[i])
      ensures forall e: nat, c: nat :: e < numLists && e != i && c < n ==> lists[e, c] == old(lists[e, c])
    {
      hide Lit, Rank;
      RankNext(D[i], j);
      RankNext(P[i], j);
      dataCount', parityCount' := dataCount, parityCount;
      inData := data.Check(i, j);
      inParity := parity.Check(i, j);
      if inData {
        Enter(i, j, dataCount);
        dataCount' := dataCount + 1;
      } else if inParity {
        Enter(i, j, k + parityCount);
        parityCount' := parityCount + 1;
      }
    }

    /** Enters the servers of list i and charges them for it. */
    method FillList(i: nat)
      requires Bits() && i < numLists && WellFormed(D[i], P[i], k, n, numServers)
      modifies lists, load, count
      ensures Done(i)
      ensures forall e: nat, c: nat :: e < numLists && e != i && c < n ==> lists[e, c] == old(lists[e, c])
      ensures forall s :: 0 <= s < numServers ==>
                load[s] == old(load[s]) + Share(D[i], P[i], k, s) && count[s] == old(count[s]) + Share(D[i], P[i], 1, s)
    {
      hide Lit, Position, WellFormed;
      var dataCount: nat, parityCount: nat := 0, 0;
      var j := 0;
      while j < numServers
        invariant 0 <= j <= numServers && dataCount == Rank(D[i], j) && parityCount == Rank(P[i], j) && Entered(i, j)
        invariant forall e: nat, c: nat :: e < numLists && e != i && c < n ==> lists[e, c] == old(lists[e, c])
        invariant forall s :: 0 <= s < numServers ==>
          load[s] == old(load[s]) + (if s < j then Share(D[i], P[i], k, s) else 0)
        invariant forall s :: 0 <= s < numServers ==>
          count[s] == old(count[s]) + (if s < j then Share(D[i], P[i], 1, s) else 0)
      {
        var inData, inParity;
        inData, inParity, dataCount, parityCount := PlaceServer(i, j, dataCount, parityCount);
        if inData {
          load[j] := load[j] + 1;
          count[j] := count[j] + 1;
        } else if inParity {
          load[j] := load[j] + k;
          count[j] := count[j] + 1;
        }
        j := j + 1;
      }
    }

    constructor (n: nat, k: nat, numLists: nat, servers: seq<Server>)
      requires 0 < k <= n <= |servers| && numLists * k < UINT32_MAX
      ensures Valid() && Loads(numLists) && ChosenGreedily(numLists) && fresh(load) && fresh(count) && fresh(lists)
              && fresh(data) && fresh(parity)
      ensures fresh(data.bitmasks) && fresh(parity.bitmasks)
      ensures this.n == n && this.k == k && this.numLists == numLists && this.servers == servers
    {
      hide Entered, WellFormed, Loads, Done, Lit, Rank, Position, ChosenGreedily;
      this.n, this.k, this.numLists, this.numServers := n, k, numLists, |servers|;
      data := new BitmaskArray(|servers|, numLists);
      parity := new BitmaskArray(|servers|, numLists);
      load := new nat[|servers|](_ => 0);
      count := new nat[|servers|](_ => 0);
      lists := new Server[numLists, n];
      this.servers, generated := servers, false;
      D, P := seq(numLists, _ => {}), seq(numLists, _ => {});
      new;
      Generate();
    }

    /** Adds one list. */
    method GenerateList(i: nat)
      requires Bits() && i < numLists && D[i] == P[i] == {} && Loads(i) && ChosenGreedily(i)
      modifies data.bitmasks, parity.bitmasks, lists, load, count, `D, `P
      ensures Bits() && D == old(D)[i := D[i]] && P == old(P)[i := P[i]] && Done(i) && Loads(i + 1)
      ensures ChosenGreedily(i + 1)
      ensures forall e: nat, c: nat :: e < numLists && e != i && c < n ==> lists[e, c] == old(lists[e, c])
      ensures forall e: nat :: e < numLists && e != i && old(Done(e)) ==> Done(e)
    {
      hide Greedy, Before, Lit, Rank, Position, Mirrors, ChosenBy;
      TimesMonotone(k, i, numLists);
      TimesIsProduct(k, numLists);
      assert i < numLists <= numLists * k;
      ghost var loads, counts := load[..], count[..];
      ghost var before, beforeP := D, P;
      PickParity(i);
      PickData(i);
      FillList(i);
      GreedyOneMore(before, beforeP, loads, counts, D, P, load[..], count[..], k, i, numServers);
      LoadsNext(loads, counts, load[..], count[..], D[i], P[i], k, n, i);
    }

    lemma NoLoads()
      requires Parts() && forall s :: 0 <= s < numServers ==> load[s] == count[s] == 0
      ensures Loads(0) && ChosenGreedily(0)
    {
      LoadsStart(load[..], count[..], k, n);
    }

    method Generate()
      requires Bits() && !generated
      requires forall i :: 0 <= i < numLists ==> D[i] == P[i] == {}
      requires forall s :: 0 <= s < numServers ==> load[s] == count[s] == 0
      modifies this, data.bitmasks, parity.bitmasks, lists, load, count
      ensures Valid() && Loads(numLists) && ChosenGreedily(numLists) && servers == old(servers)
    {
      hide Loads, Done, Entered, Mirrors, ChosenGreedily;
      NoLoads();
      var i := 0;
      while i < numLists
        invariant 0 <= i <= numLists && Bits() && !generated && servers == old(servers)
        invariant forall e :: i <= e < numLists ==> D[e] == P[e] == {}
        invariant forall e: nat :: e < i ==> Done(e)
        invariant Loads(i) && ChosenGreedily(i)
      {
        GenerateList(i);
        i := i + 1;
      }
      generated := true;
    }

    /** Enters the present servers at the positions chosen before. */
    method Update()
      requires if generated then Bits() && forall i: nat :: i < numLists ==> WellFormed(D[i], P[i], k, n, numServers)
               else Bits() && (forall i :: 0 <= i < numLists ==> D[i] == P[i] == {})
                    && forall s :: 0 <= s < numServers ==> load[s] == count[s] == 0
      modifies this, data.bitmasks, parity.bitmasks, lists, load, count
      ensures Valid() && servers == old(servers)
      ensures old(generated) ==> D == old(D) && P == old(P) && load[..] == old(load[..]) && count[..] == old(count[..])
      ensures !old(generated) ==> Loads(numLists) && ChosenGreedily(numLists)
    {
      if !generated {
        Generate();
        return;
      }
      hide Entered, WellFormed, Lit, Rank, Position;
      var i := 0;
      while i < numLists
        invariant 0 <= i <= numLists && Bits() && generated && D == old(D) && P == old(P) && servers == old(servers)
        invariant forall e: nat :: e < i ==> Done(e)
        modifies lists
      {
        UpdateList(i);
        i := i + 1;
      }
    }

    method UpdateList(i: nat)
      requires Bits() && i < numLists && WellFormed(D[i], P[i], k, n, numServers)
      modifies lists
      ensures Done(i)
      ensures forall e: nat :: e < numLists && e != i && old(Done(e)) ==> Done(e)
    {
      hide WellFormed, Lit, Position;
      var dataCount: nat, parityCount: nat := 0, 0;
      var j := 0;
      while j < numServers
        invariant 0 <= j <= numServers && dataCount == Rank(D[i], j) && parityCount == Rank(P[i], j) && Entered(i, j)
        invariant forall e: nat, c: nat :: e < numLists && e != i && c < n ==> lists[e, c] == old(lists[e, c])
      {
        var inData, inParity;
        inData, inParity, dataCount, parityCount := PlaceServer(i, j, dataCount, parityCount);
        j := j + 1;
      }
    }

    /** How many servers before `index` are set in row i. */
    method CountBelow(m: BitmaskArray, ghost rows: seq<set<nat>>, i: nat, index: nat) returns (r: nat)
      requires Mirrors(m, rows) && m.size == numServers && i < m.count && index < numServers
      ensures r == Rank(rows[i], index)
    {
      r := 0;
      var j := 0;
      while j < numServers
        invariant 0 <= j <= index && r == Rank(rows[i], j)
      {
        if j == index {
          break;
        }
        var isSet := m.Check(i, j);
        if isSet {
          r := r + 1;
        }
        j := j + 1;
      }
    }

    /** What the lists a server belongs to say about it. */
    ghost function EntryOf(i: nat, index: nat): StripeListIndex
      requires i < |D| && i < |P|
      reads `D, `P
    {
      StripeListIndex(i, 0, Position(D[i], P[i], k, index), index !in D[i])
    }

    /** All lists that server number `index` belongs to, in order. */
    method List(index: nat) returns (ret: seq<StripeListIndex>)
      requires Bits() && index < numServers
      ensures forall e :: e in ret ==> e.listId < numLists && (index in D[e.listId] || index in P[e.listId])
                                       && e == EntryOf(e.listId, index)
      ensures forall i: nat :: i < numLists && (index in D[i] || index in P[i]) ==> EntryOf(i, index) in ret
      ensures forall x, y :: 0 <= x < y < |ret| ==> ret[x].listId < ret[y].listId
    {
      hide Rank, Lit;
      ret := [];
      var i := 0;
      while i < numLists
        invariant 0 <= i <= numLists
        invariant forall e :: e in ret ==> e.listId < i && (index in D[e.listId] || index in P[e.listId])
                                           && e == EntryOf(e.listId, index)
        invariant forall l: nat :: l < i && (index in D[l] || index in P[l]) ==> EntryOf(l, index) in ret
        invariant forall x, y :: 0 <= x < y < |ret| ==> ret[x].listId < ret[y].listId
      {
        assert forall x :: 0 <= x < |ret| ==> ret[x] in ret;
        var inData := data.Check(i, index);
        if inData {
          var chunkId := CountBelow(data, D, i, index);
          ret := ret + [StripeListIndex(i, 0, chunkId, false)];
        } else {
          var inParity := parity.Check(i, index);
          if inParity {
            var chunkId := CountBelow(parity, P, i, index);
            ret := ret + [StripeListIndex(i, 0, k + chunkId, true)];
          }
        }
        i := i + 1;
      }
    }

    function Get(listIndex: nat, chunkIndex: nat): Server
      requires listIndex < lists.Length0 && chunkIndex < lists.Length1
      reads lists
    {
      lists[listIndex, chunkIndex]
    }

    /** What `List` says about a server, `Get` confirms. */
    lemma GetOfEntry(i: nat, index: nat)
      requires Valid() && i < numLists && (index in D[i] || index in P[i])
      ensures index < numServers && EntryOf(i, index).chunkId < n
      ensures Get(i, EntryOf(i, index).chunkId) == servers[index]
      ensures EntryOf(i, index).isParity <==> EntryOf(i, index).chunkId >= k
    {
      assert Done(i);
      PositionInRange(D[i], P[i], k, n, numServers, index);
    }

    /** And what `Get` says about a chunk, `List` confirms: with distinct servers, exactly one is meant. */
    lemma EntryOfGet(i: nat, c: nat) returns (index: nat)
      requires Valid() && i < numLists && c < n
      ensures index < numServers && (index in D[i] || index in P[i])
      ensures EntryOf(i, index).chunkId == c && Get(i, c) == servers[index]
      ensures (forall s, t :: 0 <= s < t < numServers ==> servers[s] != servers[t]) ==>
                forall s: nat :: s < numServers && Get(i, c) == servers[s] ==> s == index
    {
      assert Done(i);
      index := PositionReached(D[i], P[i], k, n, numServers, c);
      GetOfEntry(i, index);
    }

    /** The servers of a list's data chunks come in ascending order, and so do those of its parity chunks. */
    lemma ServersAscend(i: nat, c: nat, d: nat) returns (s: nat, t: nat)
      requires Valid() && i < numLists && c < d < n && (d < k || k <= c)
      ensures s < t < numServers && Get(i, c) == servers[s] && Get(i, d) == servers[t]
      ensures EntryOf(i, s).chunkId == c && EntryOf(i, t).chunkId == d
      ensures if d < k then s in D[i] && t in D[i] else s in P[i] && t in P[i]
    {
      s := EntryOfGet(i, c);
      t := EntryOfGet(i, d);
      assert Done(i);
      PositionInRange(D[i], P[i], k, n, numServers, s);
      PositionInRange(D[i], P[i], k, n, numServers, t);
      PositionAscends(D[i], P[i], k, n, numServers, s, t);
    }

    /** Hence the chunks of a list are kept by different servers. */
    lemma ServersOfListDiffer(i: nat, c: nat, d: nat)
      requires Valid() && i < numLists && c < n && d < n && c != d
      requires forall s, t :: 0 <= s < t < numServers ==> servers[s] != servers[t]
      ensures Get(i, c) != Get(i, d)
    {
      var s := EntryOfGet(i, c);
      var t := EntryOfGet(i, d);
    }
  }
}
