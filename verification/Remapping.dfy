/** Choosing substitutes for the failed chunks of a stripe. */
module Remapping {
  import opened ServerStates
  import StripeLists

  type Latencies = map<Server, nat>

  function SocketOf(data: seq<Server>, parity: seq<Server>, j: nat): Server
    requires j < |data| + |parity|
  {
    if j < |data| then data[j] else parity[j - |data|]
  }

  /** Chunk ids run over the data servers, then over the parity servers. */
  lemma SocketIs(data: seq<Server>, parity: seq<Server>, j: nat)
    requires j < |data| + |parity|
    ensures SocketOf(data, parity, j) == (data + parity)[j]
  {
  }

  /** The chunk ids, among the first i entries, whose servers failed; parity chunks do not matter to a GET. */
  function Kept(chunks: seq<nat>, i: nat, data: seq<Server>, parity: seq<Server>,
                states: map<Server, RemapState>, isGet: bool): (r: seq<nat>)
    requires i <= |chunks| && forall x :: 0 <= x < |chunks| ==> chunks[x] < |data| + |parity|
    ensures |r| <= i
    ensures forall x :: 0 <= x < |r| ==>
              r[x] < |data| + |parity| && AllowRemapping(states, SocketOf(data, parity, r[x]))
  {
    if i == 0 then []
    else
      var c := chunks[i - 1];
      var before := Kept(chunks, i - 1, data, parity, states, isGet);
      if AllowRemapping(states, SocketOf(data, parity, c)) && (!isGet || c < |data|) then before + [c] else before
  }

  /** An entry is kept iff its server is on its way into degraded mode or there, and a GET needs it. */
  lemma {:induction false} KeptIff(chunks: seq<nat>, i: nat, data: seq<Server>, parity: seq<Server>,
                                   states: map<Server, RemapState>, isGet: bool, c: nat)
    requires i <= |chunks| && forall x :: 0 <= x < |chunks| ==> chunks[x] < |data| + |parity|
    ensures c in Kept(chunks, i, data, parity, states, isGet)
            <==> c in chunks[..i] && (!isGet || c < |data|)
                 && var server := SocketOf(data, parity, c);
                    server in states && states[server] in {Intermediate, WaitDegraded, Degraded}
  {
    hide SocketOf;
    if i > 0 {
      KeptIff(chunks, i - 1, data, parity, states, isGet, c);
      assert chunks[..i] == chunks[..i - 1] + [chunks[i - 1]];
    }
  }

  /** The kept entries stay in their order. */
  lemma {:induction false} KeptInOrder(chunks: seq<nat>, i: nat, data: seq<Server>, parity: seq<Server>,
                                       states: map<Server, RemapState>, isGet: bool, x: nat, y: nat)
    returns (from: nat, to: nat)
    requires i <= |chunks| && forall z :: 0 <= z < |chunks| ==> chunks[z] < |data| + |parity|
    requires x < y < |Kept(chunks, i, data, parity, states, isGet)|
    ensures from < to < i
    ensures chunks[from] == Kept(chunks, i, data, parity, states, isGet)[x]
    ensures chunks[to] == Kept(chunks, i, data, parity, states, isGet)[y]
  {
    hide SocketOf, AllowRemapping;
    var before := Kept(chunks, i - 1, data, parity, states, isGet);
    if y < |before| {
      from, to := KeptInOrder(chunks, i - 1, data, parity, states, isGet, x, y);
    } else {
      KeptIff(chunks, i - 1, data, parity, states, isGet, before[x]);
      assert before[x] in before;
      from :| 0 <= from < i - 1 && chunks[..i - 1][from] == before[x];
      to := i - 1;
    }
  }

  /** Servers no substitute may be on: those of the entries, or only of the last ones when there are many. */
  ghost function Excluded(chunks: seq<nat>, i: nat, data: seq<Server>, parity: seq<Server>): set<Server>
    requires i <= |chunks| && forall x :: 0 <= x < |chunks| ==> chunks[x] < |data| + |parity|
  {
    set x | 0 <= x < i && (|chunks| <= |data| || x >= 1 + |parity|) :: SocketOf(data, parity, chunks[x])
  }

  ghost predicate Eligible(server: Server, selected: set<Server>, redirected: set<Server>,
                           states: map<Server, RemapState>) {
    server !in selected && server !in redirected && !UseCoordinatedFlow(states, server)
  }

  /** The chunk ids of the pairs (list id, chunk id) in an array. */
  ghost function Chunks(pairs: seq<nat>, count: nat): (r: seq<nat>)
    requires 2 * count <= |pairs|
    ensures |r| == count && forall x :: 0 <= x < count ==> r[x] == pairs[2 * x + 1]
  {
    seq(count, x requires 0 <= x < count => pairs[2 * x + 1])
  }

  ghost predicate SameList(pairs: seq<nat>, count: nat, listId: nat)
    requires 2 * count <= |pairs|
  {
    forall x :: 0 <= x < 2 * count && x % 2 == 0 ==> pairs[x] == listId
  }

  lemma PairOf(pairs: seq<nat>, count: nat, listId: nat, i: nat)
    requires 2 * count <= |pairs| && SameList(pairs, count, listId) && i < count
    ensures pairs[2 * i] == listId && pairs[2 * i + 1] == Chunks(pairs, count)[i]
  {
  }

  /** One more pair is written behind the first `count`. */
  lemma PairWritten(was: seq<nat>, now: seq<nat>, count: nat, listId: nat, chunkId: nat)
    requires 2 * count + 2 <= |was| && SameList(was, count, listId)
    requires now == was[2 * count := listId][2 * count + 1 := chunkId]
    ensures SameList(now, count + 1, listId) && Chunks(now, count + 1) == Chunks(was, count) + [chunkId]
  {
  }

  lemma KeptNext(chunks: seq<nat>, i: nat, data: seq<Server>, parity: seq<Server>, states: map<Server, RemapState>,
                 isGet: bool)
    requires i < |chunks| && forall x :: 0 <= x < |chunks| ==> chunks[x] < |data| + |parity|
    ensures Kept(chunks, i + 1, data, parity, states, isGet)
            == Kept(chunks, i, data, parity, states, isGet)
               + if AllowRemapping(states, SocketOf(data, parity, chunks[i])) && (!isGet || chunks[i] < |data|)
                 then [chunks[i]] else []
  {
  }

  lemma NothingKept(pairs: seq<nat>, listId: nat, chunks: seq<nat>, data: seq<Server>, parity: seq<Server>,
                    states: map<Server, RemapState>, isGet: bool)
    requires forall x :: 0 <= x < |chunks| ==> chunks[x] < |data| + |parity|
    ensures SameList(pairs, 0, listId) && Chunks(pairs, 0) == []
    ensures Kept(chunks, 0, data, parity, states, isGet) == [] && Excluded(chunks, 0, data, parity) == {}
  {
  }

  lemma ExcludedNext(chunks: seq<nat>, i: nat, data: seq<Server>, parity: seq<Server>)
    requires i < |chunks| && forall x :: 0 <= x < |chunks| ==> chunks[x] < |data| + |parity|
    ensures Excluded(chunks, i + 1, data, parity)
            == Excluded(chunks, i, data, parity)
               + if |chunks| <= |data| || i >= 1 + |parity| then {SocketOf(data, parity, chunks[i])} else {}
  {
    hide SocketOf;
  }

  /** The first pass: collects the excluded servers and the entries whose servers failed. */
  method Collect(original: array<nat>, remapped: array<nat>, numEntries: nat, listId: nat,
                 data: seq<Server>, parity: seq<Server>, states: map<Server, RemapState>, isGet: bool)
    returns (remappedCount: nat, selected: set<Server>)
    requires original != remapped && 2 * numEntries <= original.Length && 2 * numEntries <= remapped.Length
    requires SameList(original[..], numEntries, listId)
    requires forall x :: 0 <= x < numEntries ==> Chunks(original[..], numEntries)[x] < |data| + |parity|
    modifies remapped
    ensures remappedCount <= numEntries && SameList(remapped[..], remappedCount, listId)
    ensures Chunks(remapped[..], remappedCount)
            == Kept(Chunks(original[..], numEntries), numEntries, data, parity, states, isGet)
    ensures selected == Excluded(Chunks(original[..], numEntries), numEntries, data, parity)
  {
    hide AllowRemapping, SocketOf, Excluded, Kept, SameList, Chunks;
    ghost var chunks := Chunks(original[..], numEntries);
    selected := {};
    remappedCount := 0;
    NothingKept(remapped[..], listId, chunks, data, parity, states, isGet);
    var i := 0;
    while i < numEntries
      invariant 0 <= i <= numEntries && remappedCount <= i && original[..] == old(original[..])
      invariant SameList(remapped[..], remappedCount, listId)
      invariant Chunks(remapped[..], remappedCount) == Kept(chunks, i, data, parity, states, isGet)
      invariant selected == Excluded(chunks, i, data, parity)
    {
      var chunkId := original[2 * i + 1];
      PairOf(original[..], numEntries, listId, i);
      ExcludedNext(chunks, i, data, parity);
      KeptNext(chunks, i, data, parity, states, isGet);
      var server := SocketOf(data, parity, chunkId);
      if numEntries <= |data| || i >= 1 + |parity| {
        selected := selected + {server};
      }
      if AllowRemapping(states, server) && (!isGet || chunkId < |data|) {
        ghost var before: seq<nat> := remapped[..];
        remapped[2 * remappedCount] := original[2 * i];
        remapped[2 * remappedCount + 1] := original[2 * i + 1];
        PairWritten(before, remapped[..], remappedCount, listId, chunkId);
        remappedCount := remappedCount + 1;
      }
      i := i + 1;
    }
  }

  /** The chunk to use instead of a lost one: the eligible server of least latency, or the chunk itself. */
  method PickTarget(chunkId: nat, data: seq<Server>, parity: seq<Server>, selected: set<Server>,
                    redirected: set<Server>, states: map<Server, RemapState>, latencies: Latencies)
    returns (target: nat)
    requires chunkId < |data| + |parity| && AllowRemapping(states, SocketOf(data, parity, chunkId))
    ensures target < |data| + |parity|
    ensures Chosen(chunkId, target, data, parity, selected, redirected, states, latencies)
  {
    target := chunkId;
    var best: nat, known := 0, false;
    var j := 0;
    while j < |data| + |parity|
      invariant 0 <= j <= |data| + |parity| && target < |data| + |parity|
      invariant target == chunkId ==> forall t: nat :: t < j ==>
                                        !Eligible(SocketOf(data, parity, t), selected, redirected, states)
      invariant target != chunkId ==>
                  && target < j && LeastLoaded(target, j, data, parity, selected, redirected, states, latencies)
                  && known == (SocketOf(data, parity, target) in latencies)
                  && (known ==> best == latencies[SocketOf(data, parity, target)])
    {
      var server := SocketOf(data, parity, j);
      if server !in selected && server !in redirected && !UseCoordinatedFlow(states, server) {
        if target == chunkId {
          target, known := j, server in latencies;
          if known {
            best := latencies[server];
          }
        } else if known && server in latencies && latencies[server] < best {
          target, best := j, latencies[server];
        }
      }
      j := j + 1;
    }
  }

  /** Some eligible server before chunk j has a known latency. */
  ghost predicate KnownBefore(j: nat, data: seq<Server>, parity: seq<Server>, selected: set<Server>,
                              redirected: set<Server>, states: map<Server, RemapState>, latencies: Latencies)
    requires j <= |data| + |parity|
  {
    exists i: nat :: i < j && Eligible(SocketOf(data, parity, i), selected, redirected, states)
                     && SocketOf(data, parity, i) in latencies
  }

  /**
   * The target among the first n servers: the first eligible one if its latency is not known, otherwise the eligible
   * one of least known latency, the first of these.
   */
  ghost predicate LeastLoaded(target: nat, n: nat, data: seq<Server>, parity: seq<Server>, selected: set<Server>,
                              redirected: set<Server>, states: map<Server, RemapState>, latencies: Latencies)
    requires target < |data| + |parity| && n <= |data| + |parity|
  {
    var server := SocketOf(data, parity, target);
    && Eligible(server, selected, redirected, states)
    && (forall j: nat :: j < n && Eligible(SocketOf(data, parity, j), selected, redirected, states) ==>
          var other := SocketOf(data, parity, j);
          if server !in latencies then target <= j
          else if other !in latencies then KnownBefore(j, data, parity, selected, redirected, states, latencies)
          else latencies[server] <= latencies[other] && (j < target ==> latencies[server] < latencies[other]))
  }

  /** The servers already used as substitutes. */
  ghost function Redirected(sources: seq<nat>, targets: seq<nat>, data: seq<Server>, parity: seq<Server>): set<Server>
    requires |targets| <= |sources| && forall x :: 0 <= x < |targets| ==> targets[x] < |data| + |parity|
  {
    set x | 0 <= x < |targets| && targets[x] != sources[x] :: SocketOf(data, parity, targets[x])
  }

  /** The latencies after these substitutes were chosen: a server in use counts as slower. */
  ghost function LatenciesAfter(latencies: Latencies, sources: seq<nat>, targets: seq<nat>, data: seq<Server>,
                                parity: seq<Server>, increment: nat): Latencies
    requires |targets| <= |sources| && forall x :: 0 <= x < |targets| ==> targets[x] < |data| + |parity|
  {
    if targets == [] then latencies
    else
      var last := |targets| - 1;
      Slower(LatenciesAfter(latencies, sources, targets[..last], data, parity, increment),
             SocketOf(data, parity, targets[last]), targets[last] != sources[last], increment)
  }

  function Slower(latencies: Latencies, server: Server, used: bool, increment: nat): Latencies {
    if used && server in latencies then latencies[server := latencies[server] + increment] else latencies
  }

  /** Chunk t is the choice for a lost chunk: the least loaded eligible server, or no server is eligible. */
  ghost predicate Chosen(source: nat, t: nat, data: seq<Server>, parity: seq<Server>, selected: set<Server>,
                         redirected: set<Server>, states: map<Server, RemapState>, latencies: Latencies)
    requires t < |data| + |parity|
  {
    if t != source then LeastLoaded(t, |data| + |parity|, data, parity, selected, redirected, states, latencies)
    else forall j: nat :: j < |data| + |parity| ==> !Eligible(SocketOf(data, parity, j), selected, redirected, states)
  }

  /** Each lost chunk has the substitute chosen for it after those before it, or none was left. */
  ghost predicate Assigned(sources: seq<nat>, targets: seq<nat>, data: seq<Server>, parity: seq<Server>,
                           selected: set<Server>, states: map<Server, RemapState>, latencies: Latencies, increment: nat)
    requires |targets| <= |sources|
  {
    && (forall x :: 0 <= x < |targets| ==> targets[x] < |data| + |parity|)
    && (forall x :: 0 <= x < |targets| ==>
          Chosen(sources[x], targets[x], data, parity, selected, Redirected(sources, targets[..x], data, parity),
                 states, LatenciesAfter(latencies, sources, targets[..x], data, parity, increment)))
  }

  lemma RedirectedNext(sources: seq<nat>, targets: seq<nat>, t: nat, data: seq<Server>, parity: seq<Server>)
    requires |targets| < |sources| && t < |data| + |parity|
    requires forall x :: 0 <= x < |targets| ==> targets[x] < |data| + |parity|
    ensures Redirected(sources, targets + [t], data, parity)
            == Redirected(sources, targets, data, parity)
               + if t != sources[|targets|] then {SocketOf(data, parity, t)} else {}
  {
    hide SocketOf;
  }

  lemma LatenciesNext(sources: seq<nat>, targets: seq<nat>, t: nat, data: seq<Server>, parity: seq<Server>,
                      latencies: Latencies, increment: nat)
    requires |targets| < |sources| && t < |data| + |parity|
    requires forall x :: 0 <= x < |targets| ==> targets[x] < |data| + |parity|
    ensures LatenciesAfter(latencies, sources, targets + [t], data, parity, increment)
            == Slower(LatenciesAfter(latencies, sources, targets, data, parity, increment), SocketOf(data, parity, t),
                      t != sources[|targets|], increment)
  {
    hide SocketOf, Slower;
    assert (targets + [t])[..|targets|] == targets;
  }

  lemma AssignedNext(sources: seq<nat>, targets: seq<nat>, t: nat, data: seq<Server>, parity: seq<Server>,
                     selected: set<Server>, states: map<Server, RemapState>, latencies: Latencies, increment: nat)
    requires |targets| < |sources| && t < |data| + |parity|
    requires Assigned(sources, targets, data, parity, selected, states, latencies, increment)
    requires Chosen(sources[|targets|], t, data, parity, selected, Redirected(sources, targets, data, parity), states,
                    LatenciesAfter(latencies, sources, targets, data, parity, increment))
    ensures Assigned(sources, targets + [t], data, parity, selected, states, latencies, increment)
  {
    hide Chosen, Redirected, LatenciesAfter;
    var more := targets + [t];
    forall x | 0 <= x < |more|
      ensures Chosen(sources[x], more[x], data, parity, selected, Redirected(sources, more[..x], data, parity), states,
                     LatenciesAfter(latencies, sources, more[..x], data, parity, increment))
    {
      if x < |targets| {
        assert more[..x] == targets[..x];
      } else {
        assert more[..x] == targets;
      }
    }
  }

  /** What an assignment is good for. */
  lemma AssignedIsSafe(sources: seq<nat>, targets: seq<nat>, data: seq<Server>, parity: seq<Server>,
                       selected: set<Server>, states: map<Server, RemapState>, latencies: Latencies, increment: nat,
                       x: nat, y: nat)
    requires |targets| == |sources| && x < |targets| && y < |targets|
    requires Assigned(sources, targets, data, parity, selected, states, latencies, increment)
    requires targets[x] != sources[x]
    ensures SocketOf(data, parity, targets[x]) !in selected
    ensures SocketOf(data, parity, targets[x]) in states ==> states[SocketOf(data, parity, targets[x])] == Normal
    ensures x < y && targets[y] != sources[y] ==>
              SocketOf(data, parity, targets[x]) != SocketOf(data, parity, targets[y])
    ensures x < y && targets[y] != sources[y] ==> targets[x] != targets[y]
  {
    if x < y && targets[y] != sources[y] {
      assert targets[..y][x] == targets[x];
      assert SocketOf(data, parity, targets[x]) in Redirected(sources, targets[..y], data, parity);
    }
  }

  /** No substitute is the server of a failed entry, least of all the entry's own: for any number of entries. */
  lemma NoTargetIsFailed(sources: seq<nat>, targets: seq<nat>, data: seq<Server>, parity: seq<Server>,
                         selected: set<Server>, states: map<Server, RemapState>, latencies: Latencies, increment: nat,
                         x: nat, y: nat)
    requires |targets| == |sources| && x < |targets| && y < |targets|
    requires Assigned(sources, targets, data, parity, selected, states, latencies, increment)
    requires targets[x] != sources[x] && sources[y] < |data| + |parity|
    requires AllowRemapping(states, SocketOf(data, parity, sources[y]))
    ensures SocketOf(data, parity, targets[x]) != SocketOf(data, parity, sources[y])
  {
    AssignedIsSafe(sources, targets, data, parity, selected, states, latencies, increment, x, x);
  }

  /**
   * What the choice of a substitute means. With j another server that could be used: the target comes first unless
   * its latency is known; then no known latency is smaller, no equal one comes first, and a server of unknown
   * latency comes behind one that could be used and has a known latency.
   */
  lemma ChosenIsBest(source: nat, t: nat, j: nat, data: seq<Server>, parity: seq<Server>, selected: set<Server>,
                     redirected: set<Server>, states: map<Server, RemapState>, latencies: Latencies)
    requires t < |data| + |parity| && j < |data| + |parity| && t != source
    requires Chosen(source, t, data, parity, selected, redirected, states, latencies)
    requires var other := SocketOf(data, parity, j);
             other !in selected && other !in redirected && (other in states ==> states[other] == Normal)
    ensures var server, other := SocketOf(data, parity, t), SocketOf(data, parity, j);
            && server !in selected && server !in redirected && (server in states ==> states[server] == Normal)
            && (server !in latencies ==> t <= j)
            && (server in latencies && other in latencies ==>
                  latencies[server] <= latencies[other] && (j < t ==> latencies[server] < latencies[other]))
            && (server in latencies && other !in latencies ==>
                  exists i: nat :: i < j && var known := SocketOf(data, parity, i);
                    known in latencies && known !in selected && known !in redirected
                    && (known in states ==> states[known] == Normal))
  {
    hide SocketOf;
  }

  /** The choice is determined. */
  lemma ChosenIsUnique(source: nat, t: nat, u: nat, data: seq<Server>, parity: seq<Server>, selected: set<Server>,
                       redirected: set<Server>, states: map<Server, RemapState>, latencies: Latencies)
    requires t < |data| + |parity| && u < |data| + |parity|
    requires Chosen(source, t, data, parity, selected, redirected, states, latencies)
    requires Chosen(source, u, data, parity, selected, redirected, states, latencies)
    ensures t == u
  {
    hide Eligible, SocketOf;
  }

  /** So for given states and latencies there is one assignment, the one that the loop computes. */
  lemma {:induction false} AssignedIsUnique(sources: seq<nat>, targets: seq<nat>, others: seq<nat>,
                                            data: seq<Server>, parity: seq<Server>, selected: set<Server>,
                                            states: map<Server, RemapState>, latencies: Latencies, increment: nat)
    requires |targets| == |others| <= |sources|
    requires Assigned(sources, targets, data, parity, selected, states, latencies, increment)
    requires Assigned(sources, others, data, parity, selected, states, latencies, increment)
    ensures targets == others
  {
    hide Chosen, Redirected, LatenciesAfter;
    if targets != [] {
      var last := |targets| - 1;
      assert forall x :: 0 <= x < last ==> targets[..last][..x] == targets[..x] && others[..last][..x] == others[..x];
      AssignedIsUnique(sources, targets[..last], others[..last], data, parity, selected, states, latencies, increment);
      ChosenIsUnique(sources[last], targets[last], others[last], data, parity, selected,
                     Redirected(sources, targets[..last], data, parity), states,
                     LatenciesAfter(latencies, sources, targets[..last], data, parity, increment));
    }
  }

  /** Serving as a substitute raises a known latency by the increment, once; nothing else changes. */
  lemma {:induction false} LatenciesAre(sources: seq<nat>, targets: seq<nat>, data: seq<Server>, parity: seq<Server>,
                                        selected: set<Server>, states: map<Server, RemapState>, latencies: Latencies,
                                        increment: nat, s: Server)
    requires |targets| <= |sources|
    requires Assigned(sources, targets, data, parity, selected, states, latencies, increment)
    ensures var now := LatenciesAfter(latencies, sources, targets, data, parity, increment);
            && (s in now <==> s in latencies)
            && (s in now ==> now[s] == latencies[s] + if s in Redirected(sources, targets, data, parity) then increment
                                                      else 0)
  {
    hide SocketOf, Redirected, LatenciesAfter, Assigned;
    TargetsInRange(sources, targets, data, parity, selected, states, latencies, increment);
    if targets == [] {
      NothingAssigned(sources, targets, data, parity, selected, states, latencies, increment);
    } else {
      var last := |targets| - 1;
      var before, t := targets[..last], targets[last];
      AssignedPrefix(sources, targets, data, parity, selected, states, latencies, increment);
      LatenciesAre(sources, before, data, parity, selected, states, latencies, increment, s);
      assert targets == before + [t];
      RedirectedNext(sources, before, t, data, parity);
      LatenciesNext(sources, before, t, data, parity, latencies, increment);
      LastIsNew(sources, targets, data, parity, selected, states, latencies, increment);
    }
  }

  lemma TargetsInRange(sources: seq<nat>, targets: seq<nat>, data: seq<Server>, parity: seq<Server>,
                       selected: set<Server>, states: map<Server, RemapState>, latencies: Latencies, increment: nat)
    requires |targets| <= |sources|
    requires Assigned(sources, targets, data, parity, selected, states, latencies, increment)
    ensures forall x :: 0 <= x < |targets| ==> targets[x] < |data| + |parity|
  {
  }

  lemma AssignedPrefix(sources: seq<nat>, targets: seq<nat>, data: seq<Server>, parity: seq<Server>,
                       selected: set<Server>, states: map<Server, RemapState>, latencies: Latencies, increment: nat)
    requires 0 < |targets| <= |sources|
    requires Assigned(sources, targets, data, parity, selected, states, latencies, increment)
    ensures Assigned(sources, targets[..|targets| - 1], data, parity, selected, states, latencies, increment)
  {
    hide Chosen, Redirected, LatenciesAfter;
    var before := targets[..|targets| - 1];
    assert forall x :: 0 <= x < |before| ==> targets[x] == before[x] && targets[..x] == before[..x];
  }

  /** The last substitute has not served before. */
  lemma LastIsNew(sources: seq<nat>, targets: seq<nat>, data: seq<Server>, parity: seq<Server>,
                  selected: set<Server>, states: map<Server, RemapState>, latencies: Latencies, increment: nat)
    requires 0 < |targets| <= |sources|
    requires Assigned(sources, targets, data, parity, selected, states, latencies, increment)
    ensures var last := |targets| - 1;
            targets[last] != sources[last] ==>
              SocketOf(data, parity, targets[last]) !in Redirected(sources, targets[..last], data, parity)
  {
    hide SocketOf, Redirected, LatenciesAfter;
  }

  /** An entry is left as it is only when every other server is excluded, failed or used. */
  lemma UnassignedOnlyIfNoneLeft(sources: seq<nat>, targets: seq<nat>, data: seq<Server>, parity: seq<Server>,
                                 selected: set<Server>, states: map<Server, RemapState>, latencies: Latencies,
                                 increment: nat, x: nat, j: nat)
    requires |targets| == |sources| && x < |targets|
    requires Assigned(sources, targets, data, parity, selected, states, latencies, increment)
    requires targets[x] == sources[x] && j < |data| + |parity|
    requires SocketOf(data, parity, j) !in selected
    requires SocketOf(data, parity, j) in states ==> states[SocketOf(data, parity, j)] == Normal
    ensures exists y ::
              && 0 <= y < x && targets[y] != sources[y]
              && SocketOf(data, parity, targets[y]) == SocketOf(data, parity, j)
  {
    var before := Redirected(sources, targets[..x], data, parity);
    assert !Eligible(SocketOf(data, parity, j), selected, before, states);
    var y :| 0 <= y < |targets[..x]| && targets[..x][y] != sources[y]
             && SocketOf(data, parity, targets[..x][y]) == SocketOf(data, parity, j);
    assert targets[y] == targets[..x][y];
  }

  lemma NothingAssigned(sources: seq<nat>, targets: seq<nat>, data: seq<Server>, parity: seq<Server>,
                        selected: set<Server>, states: map<Server, RemapState>, latencies: Latencies, increment: nat)
    requires targets == []
    ensures Assigned(sources, targets, data, parity, selected, states, latencies, increment)
    ensures LatenciesAfter(latencies, sources, targets, data, parity, increment) == latencies
    ensures Redirected(sources, targets, data, parity) == {}
  {
  }

  /** Replaces the entries by those that were kept. */
  method CopyBack(original: array<nat>, remapped: array<nat>, count: nat, listId: nat)
    requires original != remapped && 2 * count <= original.Length && 2 * count <= remapped.Length
    requires SameList(remapped[..], count, listId)
    modifies original
    ensures SameList(original[..], count, listId) && Chunks(original[..], count) == Chunks(remapped[..], count)
    ensures original[2 * count..] == old(original[2 * count..])
  {
    var i := 0;
    while i < count
      invariant 0 <= i <= count && forall x :: 0 <= x < 2 * i ==> original[x] == remapped[x]
      invariant original[2 * count..] == old(original[2 * count..])
    {
      original[2 * i] := remapped[2 * i];
      original[2 * i + 1] := remapped[2 * i + 1];
      i := i + 1;
    }
  }

  /** The second pass: a substitute for every kept entry, in turn. */
  method AssignTargets(original: array<nat>, remapped: array<nat>, count: nat, listId: nat,
                       data: seq<Server>, parity: seq<Server>, list: StripeLists.StripeList, selected: set<Server>,
                       states: map<Server, RemapState>, latencies: Latencies, increment: nat)
    returns (latencies': Latencies)
    requires original != remapped && 2 * count <= original.Length && 2 * count <= remapped.Length
    requires SameList(original[..], count, listId)
    requires forall x :: 0 <= x < count ==> var c := Chunks(original[..], count)[x];
                           c < |data| + |parity| && AllowRemapping(states, SocketOf(data, parity, c))
    requires listId < list.lists.Length0 && list.lists.Length1 == |data| + |parity|
    requires forall c: nat :: c < |data| + |parity| ==> list.Get(listId, c) == SocketOf(data, parity, c)
    requires (list.lists as object) != remapped
    modifies remapped
    ensures SameList(remapped[..], count, listId)
    ensures Assigned(Chunks(original[..], count), Chunks(remapped[..], count), data, parity, selected, states,
                     latencies, increment)
    ensures latencies' == LatenciesAfter(latencies, Chunks(original[..], count), Chunks(remapped[..], count), data,
                                         parity, increment)
  {
    hide Assigned, Eligible, Redirected, LatenciesAfter;
    latencies' := latencies;
    ghost var sources := Chunks(original[..], count);
    ghost var targets: seq<nat> := [];
    var redirected: set<Server> := {};
    NothingAssigned(sources, targets, data, parity, selected, states, latencies, increment);
    var i := 0;
    while i < count
      invariant 0 <= i <= count && SameList(remapped[..], i, listId) && targets == Chunks(remapped[..], i)
      invariant forall x :: 0 <= x < |targets| ==> targets[x] < |data| + |parity|
      invariant Assigned(sources, targets, data, parity, selected, states, latencies, increment)
      invariant latencies' == LatenciesAfter(latencies, sources, targets, data, parity, increment)
      invariant redirected == Redirected(sources, targets, data, parity)
    {
      assert original[2 * i + 1] == sources[i] && original[2 * i] == listId;
      var target := PickTarget(original[2 * i + 1], data, parity, selected, redirected, states, latencies');
      remapped[2 * i] := original[2 * i];
      remapped[2 * i + 1] := target;
      AssignedNext(sources, targets, target, data, parity, selected, states, latencies, increment);
      RedirectedNext(sources, targets, target, data, parity);
      LatenciesNext(sources, targets, target, data, parity, latencies, increment);
      targets := targets + [target];
      if target != original[2 * i + 1] {
        var server := list.Get(remapped[2 * i], target);
        if server in latencies' {
          latencies' := latencies'[server := latencies'[server] + increment];
        }
        redirected := redirected + {server};
      }
      i := i + 1;
    }
  }

  lemma KeptIffAll(chunks: seq<nat>, data: seq<Server>, parity: seq<Server>, states: map<Server, RemapState>,
                   isGet: bool)
    requires forall x :: 0 <= x < |chunks| ==> chunks[x] < |data| + |parity|
    ensures forall c :: c in Kept(chunks, |chunks|, data, parity, states, isGet)
                        <==> c in chunks && (!isGet || c < |data|)
                             && var server := SocketOf(data, parity, c);
                                server in states && states[server] in {Intermediate, WaitDegraded, Degraded}
  {
    forall c: nat
      ensures c in Kept(chunks, |chunks|, data, parity, states, isGet)
              <==> c in chunks && (!isGet || c < |data|)
                   && var server := SocketOf(data, parity, c);
                      server in states && states[server] in {Intermediate, WaitDegraded, Degraded}
    {
      KeptIff(chunks, |chunks|, data, parity, states, isGet, c);
      assert chunks[..|chunks|] == chunks;
    }
  }

  /** Assigns substitutes to the failed chunks among the entries. */
  method Redirect(original: array<nat>, remapped: array<nat>, numEntries: nat, listId: nat,
                  data: seq<Server>, parity: seq<Server>, list: StripeLists.StripeList,
                  states: map<Server, RemapState>, latencies: Latencies, increment: nat, isGet: bool)
    returns (remappedCount: nat, latencies': Latencies)
    requires original != remapped && 2 * numEntries <= original.Length && 2 * numEntries <= remapped.Length
    requires SameList(original[..], numEntries, listId)
    requires forall x :: 0 <= x < numEntries ==> Chunks(original[..], numEntries)[x] < |data| + |parity|
    requires listId < list.lists.Length0 && list.lists.Length1 == |data| + |parity|
    requires forall c: nat :: c < |data| + |parity| ==> list.Get(listId, c) == SocketOf(data, parity, c)
    requires (list.lists as object) != remapped && (list.lists as object) != original
    modifies original, remapped
    ensures remappedCount <= numEntries
    ensures SameList(original[..], remappedCount, listId) && SameList(remapped[..], remappedCount, listId)
    ensures Chunks(original[..], remappedCount)
            == Kept(old(Chunks(original[..], numEntries)), numEntries, data, parity, states, isGet)
    ensures forall c :: c in Chunks(original[..], remappedCount)
                        <==> c in old(Chunks(original[..], numEntries)) && (!isGet || c < |data|)
                             && var server := SocketOf(data, parity, c);
                                server in states && states[server] in {Intermediate, WaitDegraded, Degraded}
    ensures Assigned(Chunks(original[..], remappedCount), Chunks(remapped[..], remappedCount), data, parity,
                     Excluded(old(Chunks(original[..], numEntries)), numEntries, data, parity), states, latencies,
                       increment)
    ensures latencies' == LatenciesAfter(latencies, Chunks(original[..], remappedCount),
                                         Chunks(remapped[..], remappedCount),
                                         data, parity, increment)
    ensures original[2 * remappedCount..] == old(original[..])[2 * remappedCount..]
  {
    hide Kept, Excluded, Assigned, LatenciesAfter, AllowRemapping;
    latencies' := latencies;
    var selected;
    KeptIffAll(old(Chunks(original[..], numEntries)), data, parity, states, isGet);
    remappedCount, selected := Collect(original, remapped, numEntries, listId, data, parity, states, isGet);
    if remappedCount == 0 {
      NothingAssigned(Chunks(original[..], 0), Chunks(remapped[..], 0), data, parity, selected, states, latencies,
                      increment);
      return;
    }
    CopyBack(original, remapped, remappedCount, listId);
    latencies' := AssignTargets(original, remapped, remappedCount, listId, data, parity, list, selected, states,
                                latencies, increment);
  }
}
