/** When a substitute can be the server of another entry. */
module OriginalServers {
  import opened ServerStates
  import opened Remapping

  /** The chunks of a list are on different servers, and the entries name different chunks of it. */
  ghost predicate DistinctEntries(chunks: seq<nat>, data: seq<Server>, parity: seq<Server>) {
    && (forall j: nat, l: nat :: j < l < |data| + |parity| ==> SocketOf(data, parity, j) != SocketOf(data, parity, l))
    && (forall y :: 0 <= y < |chunks| ==> chunks[y] < |data| + |parity|)
    && (forall y, z :: 0 <= y < z < |chunks| ==> chunks[y] != chunks[z])
  }

  /** Few entries, or an entry behind the first 1 + m: the test under which its server is excluded. */
  predicate IsExcluded(chunks: seq<nat>, y: nat, data: seq<Server>, parity: seq<Server>) {
    |chunks| <= |data| || y >= 1 + |parity|
  }

  lemma OriginalExcludedIff(chunks: seq<nat>, y: nat, data: seq<Server>, parity: seq<Server>)
    requires DistinctEntries(chunks, data, parity) && y < |chunks|
    ensures SocketOf(data, parity, chunks[y]) in Excluded(chunks, |chunks|, data, parity)
            <==> IsExcluded(chunks, y, data, parity)
  {
    hide SocketOf;
  }

  /** Redirecting these entries, in these states and with these latencies, assigns these targets. */
  ghost predicate Outcome(chunks: seq<nat>, data: seq<Server>, parity: seq<Server>, isGet: bool,
                          states: map<Server, RemapState>, latencies: Latencies, increment: nat, targets: seq<nat>)
    requires forall y :: 0 <= y < |chunks| ==> chunks[y] < |data| + |parity|
  {
    var sources := Kept(chunks, |chunks|, data, parity, states, isGet);
    |targets| == |sources|
    && Assigned(sources, targets, data, parity, Excluded(chunks, |chunks|, data, parity), states, latencies, increment)
  }

  /** In this outcome the server of entry y substitutes for another. */
  ghost predicate Substitutes(chunks: seq<nat>, y: nat, data: seq<Server>, parity: seq<Server>, isGet: bool,
                              states: map<Server, RemapState>, targets: seq<nat>)
    requires y < |chunks| && forall z :: 0 <= z < |chunks| ==> chunks[z] < |data| + |parity|
  {
    var sources := Kept(chunks, |chunks|, data, parity, states, isGet);
    exists x :: 0 <= x < |targets| && x < |sources| && targets[x] < |data| + |parity| && targets[x] != sources[x]
                && SocketOf(data, parity, targets[x]) == SocketOf(data, parity, chunks[y])
  }

  /** Whatever the states and latencies, the server of entry y is no substitute. */
  ghost predicate NeverSubstitutes(chunks: seq<nat>, y: nat, data: seq<Server>, parity: seq<Server>, isGet: bool)
    requires y < |chunks| && forall z :: 0 <= z < |chunks| ==> chunks[z] < |data| + |parity|
  {
    forall states: map<Server, RemapState>, latencies: Latencies, increment: nat, targets: seq<nat> ::
      Outcome(chunks, data, parity, isGet, states, latencies, increment, targets) ==>
        !Substitutes(chunks, y, data, parity, isGet, states, targets)
  }

  /** An entry that can need a substitute. */
  predicate CanBeKept(chunk: nat, data: seq<Server>, isGet: bool) {
    !isGet || chunk < |data|
  }

  lemma ExcludedIsSafe(chunks: seq<nat>, y: nat, data: seq<Server>, parity: seq<Server>, isGet: bool,
                       states: map<Server, RemapState>, latencies: Latencies, increment: nat, targets: seq<nat>, x: nat)
    requires DistinctEntries(chunks, data, parity) && y < |chunks| && IsExcluded(chunks, y, data, parity)
    requires Outcome(chunks, data, parity, isGet, states, latencies, increment, targets) && x < |targets|
    requires targets[x] != Kept(chunks, |chunks|, data, parity, states, isGet)[x]
    ensures SocketOf(data, parity, targets[x]) != SocketOf(data, parity, chunks[y])
  {
    hide SocketOf, Kept, Assigned, Excluded, AllowRemapping;
    var sources := Kept(chunks, |chunks|, data, parity, states, isGet);
    OriginalExcludedIff(chunks, y, data, parity);
    AssignedIsSafe(sources, targets, data, parity, Excluded(chunks, |chunks|, data, parity), states, latencies,
                   increment, x, x);
  }

  lemma ExcludedNeverSubstitutes(chunks: seq<nat>, y: nat, data: seq<Server>, parity: seq<Server>, isGet: bool)
    requires DistinctEntries(chunks, data, parity) && y < |chunks| && IsExcluded(chunks, y, data, parity)
    ensures NeverSubstitutes(chunks, y, data, parity, isGet)
  {
    hide SocketOf, Kept, Outcome, IsExcluded;
    forall states: map<Server, RemapState>, latencies: Latencies, increment: nat, targets: seq<nat> |
      Outcome(chunks, data, parity, isGet, states, latencies, increment, targets)
      ensures !Substitutes(chunks, y, data, parity, isGet, states, targets)
    {
      var sources := Kept(chunks, |chunks|, data, parity, states, isGet);
      forall x: nat | x < |targets| && x < |sources| && targets[x] < |data| + |parity| && targets[x] != sources[x]
        ensures SocketOf(data, parity, targets[x]) != SocketOf(data, parity, chunks[y])
      {
        ExcludedIsSafe(chunks, y, data, parity, isGet, states, latencies, increment, targets, x);
      }
    }
  }

  /** An entry is no substitute for itself, so without another entry to be kept it is none at all. */
  lemma AloneIsSafe(chunks: seq<nat>, y: nat, data: seq<Server>, parity: seq<Server>, isGet: bool,
                    states: map<Server, RemapState>, latencies: Latencies, increment: nat, targets: seq<nat>, x: nat)
    requires DistinctEntries(chunks, data, parity) && y < |chunks|
    requires forall z :: 0 <= z < |chunks| && z != y ==> !CanBeKept(chunks[z], data, isGet)
    requires Outcome(chunks, data, parity, isGet, states, latencies, increment, targets) && x < |targets|
    requires targets[x] != Kept(chunks, |chunks|, data, parity, states, isGet)[x]
    ensures SocketOf(data, parity, targets[x]) != SocketOf(data, parity, chunks[y])
  {
    hide SocketOf, Kept, Assigned, Excluded;
    var sources := Kept(chunks, |chunks|, data, parity, states, isGet);
    assert sources[x] in sources;
    KeptIff(chunks, |chunks|, data, parity, states, isGet, sources[x]);
    NoTargetIsFailed(sources, targets, data, parity, Excluded(chunks, |chunks|, data, parity), states, latencies,
                     increment, x, x);
  }

  lemma AloneNeverSubstitutes(chunks: seq<nat>, y: nat, data: seq<Server>, parity: seq<Server>, isGet: bool)
    requires DistinctEntries(chunks, data, parity) && y < |chunks|
    requires forall z :: 0 <= z < |chunks| && z != y ==> !CanBeKept(chunks[z], data, isGet)
    ensures NeverSubstitutes(chunks, y, data, parity, isGet)
  {
    hide SocketOf, Kept, Outcome, IsExcluded;
    forall states: map<Server, RemapState>, latencies: Latencies, increment: nat, targets: seq<nat> |
      Outcome(chunks, data, parity, isGet, states, latencies, increment, targets)
      ensures !Substitutes(chunks, y, data, parity, isGet, states, targets)
    {
      var sources := Kept(chunks, |chunks|, data, parity, states, isGet);
      forall x: nat | x < |targets| && x < |sources| && targets[x] < |data| + |parity| && targets[x] != sources[x]
        ensures SocketOf(data, parity, targets[x]) != SocketOf(data, parity, chunks[y])
      {
        AloneIsSafe(chunks, y, data, parity, isGet, states, latencies, increment, targets, x);
      }
    }
  }

  /** Entry x failed, the server of entry y is normal, no other server may be used. */
  ghost function OnlyServer(chunks: seq<nat>, x: nat, y: nat, data: seq<Server>, parity: seq<Server>)
    : map<Server, RemapState>
    requires x < |chunks| && y < |chunks| && forall z :: 0 <= z < |chunks| ==> chunks[z] < |data| + |parity|
  {
    map s | s in data + parity ::
      if s == SocketOf(data, parity, chunks[y]) then Normal
      else if s == SocketOf(data, parity, chunks[x]) then Intermediate
      else Coordinated
  }

  lemma OnlyServerStates(chunks: seq<nat>, x: nat, y: nat, data: seq<Server>, parity: seq<Server>, j: nat)
    requires DistinctEntries(chunks, data, parity) && x < |chunks| && y < |chunks| && x != y && j < |data| + |parity|
    ensures var s, states := SocketOf(data, parity, j), OnlyServer(chunks, x, y, data, parity);
            && (AllowRemapping(states, s) <==> j == chunks[x])
            && (UseCoordinatedFlow(states, s) <==> j != chunks[y])
  {
    assert SocketOf(data, parity, j) == (data + parity)[j];
  }

  lemma {:induction false} OnlyOneKept(chunks: seq<nat>, i: nat, x: nat, y: nat, data: seq<Server>, parity: seq<Server>,
                                       isGet: bool)
    requires DistinctEntries(chunks, data, parity) && x < |chunks| && y < |chunks| && x != y && i <= |chunks|
    requires CanBeKept(chunks[x], data, isGet)
    ensures Kept(chunks, i, data, parity, OnlyServer(chunks, x, y, data, parity), isGet)
            == if x < i then [chunks[x]] else []
  {
    hide SocketOf, OnlyServer;
    if i > 0 {
      OnlyOneKept(chunks, i - 1, x, y, data, parity, isGet);
      OnlyServerStates(chunks, x, y, data, parity, chunks[i - 1]);
    }
  }

  /** If the server of entry y is not excluded, it substitutes for any other entry when all else is unavailable. */
  lemma OriginalSubstitutes(chunks: seq<nat>, x: nat, y: nat, data: seq<Server>, parity: seq<Server>, isGet: bool,
                            latencies: Latencies, increment: nat)
    requires DistinctEntries(chunks, data, parity) && x < |chunks| && y < |chunks| && x != y
    requires CanBeKept(chunks[x], data, isGet) && !IsExcluded(chunks, y, data, parity)
    ensures var states := OnlyServer(chunks, x, y, data, parity);
            && Outcome(chunks, data, parity, isGet, states, latencies, increment, [chunks[y]])
            && Substitutes(chunks, y, data, parity, isGet, states, [chunks[y]])
  {
    hide SocketOf, OnlyServer, Excluded, Kept;
    var states, selected := OnlyServer(chunks, x, y, data, parity), Excluded(chunks, |chunks|, data, parity);
    OriginalExcludedIff(chunks, y, data, parity);
    OnlyOneKept(chunks, |chunks|, x, y, data, parity, isGet);
    forall j: nat | j < |data| + |parity|
      ensures Eligible(SocketOf(data, parity, j), selected, {}, states) <==> j == chunks[y]
    {
      OnlyServerStates(chunks, x, y, data, parity, j);
    }
    assert chunks[y] != chunks[x];
    assert Redirected([chunks[x]], [chunks[y]][..0], data, parity) == {};
    assert [chunks[y]][0] != [chunks[x]][0];
  }

  /**
   * The server of entry y is never a substitute, whatever the states and latencies, exactly when it is excluded or no
   * other entry can need one.
   */
  lemma NeverSubstitutesIff(chunks: seq<nat>, y: nat, data: seq<Server>, parity: seq<Server>, isGet: bool)
    requires DistinctEntries(chunks, data, parity) && y < |chunks|
    ensures NeverSubstitutes(chunks, y, data, parity, isGet)
            <==> IsExcluded(chunks, y, data, parity)
                 || forall x :: 0 <= x < |chunks| && x != y ==> !CanBeKept(chunks[x], data, isGet)
  {
    hide SocketOf, Outcome, Substitutes, OnlyServer;
    if IsExcluded(chunks, y, data, parity) {
      ExcludedNeverSubstitutes(chunks, y, data, parity, isGet);
    } else if forall x :: 0 <= x < |chunks| && x != y ==> !CanBeKept(chunks[x], data, isGet) {
      AloneNeverSubstitutes(chunks, y, data, parity, isGet);
    } else {
      var x :| 0 <= x < |chunks| && x != y && CanBeKept(chunks[x], data, isGet);
      OriginalSubstitutes(chunks, x, y, data, parity, isGet, map[], 0);
    }
  }

  /** For a SET, UPDATE or DELETE: no more entries than data chunks, or the entry is behind the first 1 + m. */
  lemma NeverSubstitutesInWrites(chunks: seq<nat>, y: nat, data: seq<Server>, parity: seq<Server>)
    requires DistinctEntries(chunks, data, parity) && y < |chunks| && |data| > 0
    ensures NeverSubstitutes(chunks, y, data, parity, false) <==> |chunks| <= |data| || y >= 1 + |parity|
  {
    hide NeverSubstitutes;
    NeverSubstitutesIff(chunks, y, data, parity, false);
    if |chunks| > |data| {
      assert CanBeKept(chunks[if y == 0 then 1 else 0], data, false);
    }
  }
}
