/** The handlers that move a parity revert along: event queue, pending acks, counters. */
module RevertHandling {
  import opened ServerStates
  import RevertCounters

  /** A message to `server` to revert the parity updates of `target`; it carries target's counter. */
  datatype RevertEvent = RevertEvent(server: Server, target: Server)

  datatype AckEntry = AckEntry(server: Server, requestId: RevertCounters.RequestId, target: Server)

  /** The queued events that carry the counter of t. */
  ghost function QueuedFor(queue: seq<RevertEvent>, t: Server): nat {
    if queue == [] then 0
    else QueuedFor(queue[..|queue| - 1], t) + if queue[|queue| - 1].target == t then 1 else 0
  }

  /** The pending acks that carry it. */
  ghost function AcksFor(acks: seq<AckEntry>, t: Server): nat {
    if acks == [] then 0
    else AcksFor(acks[..|acks| - 1], t) + if acks[|acks| - 1].target == t then 1 else 0
  }

  lemma {:induction false} QueuedForAppend(a: seq<RevertEvent>, b: seq<RevertEvent>, t: Server)
    ensures QueuedFor(a + b, t) == QueuedFor(a, t) + QueuedFor(b, t)
  {
    if b == [] {
      assert a + b == a;
    } else {
      assert (a + b)[..|a + b| - 1] == a + b[..|b| - 1];
      QueuedForAppend(a, b[..|b| - 1], t);
    }
  }

  lemma {:induction false} AcksForAppend(a: seq<AckEntry>, b: seq<AckEntry>, t: Server)
    ensures AcksFor(a + b, t) == AcksFor(a, t) + AcksFor(b, t)
  {
    if b == [] {
      assert a + b == a;
    } else {
      assert (a + b)[..|a + b| - 1] == a + b[..|b| - 1];
      AcksForAppend(a, b[..|b| - 1], t);
    }
  }

  lemma QueuedForOne(e: RevertEvent, t: Server)
    ensures QueuedFor([e], t) == if e.target == t then 1 else 0
  {
    assert [e][..0] == [];
  }

  lemma AcksForOne(k: AckEntry, t: Server)
    ensures AcksFor([k], t) == if k.target == t then 1 else 0
  {
    assert [k][..0] == [];
  }

  /** One event less. */
  lemma QueuedForTail(queue: seq<RevertEvent>, t: Server)
    requires queue != []
    ensures QueuedFor(queue, t) == QueuedFor(queue[1..], t) + if queue[0].target == t then 1 else 0
  {
    assert queue == [queue[0]] + queue[1..];
    QueuedForAppend([queue[0]], queue[1..], t);
    QueuedForOne(queue[0], t);
  }

  /** One ack less. */
  lemma AcksForRemoved(acks: seq<AckEntry>, i: nat, t: Server)
    requires i < |acks|
    ensures AcksFor(acks, t) == AcksFor(acks[..i] + acks[i + 1..], t) + if acks[i].target == t then 1 else 0
  {
    assert acks == acks[..i] + [acks[i]] + acks[i + 1..];
    AcksForAppend(acks[..i] + [acks[i]], acks[i + 1..], t);
    AcksForAppend(acks[..i], [acks[i]], t);
    AcksForAppend(acks[..i], acks[i + 1..], t);
    AcksForOne(acks[i], t);
  }

  /** The servers asked: all but the target and those declared to be failed. */
  ghost function RevertEvents(servers: seq<Server>, states: map<Server, RemapState>, target: Server): seq<RevertEvent> {
    if servers == [] then []
    else
      var last := |servers| - 1;
      var events := RevertEvents(servers[..last], states, target);
      if servers[last] == target || UseCoordinatedFlow(states, servers[last]) then events
      else events + [RevertEvent(servers[last], target)]
  }

  lemma {:induction false} RevertEventsAre(servers: seq<Server>, states: map<Server, RemapState>, target: Server,
                                           p: Server)
    ensures forall e :: e in RevertEvents(servers, states, target) ==> e.target == target
    ensures RevertEvent(p, target) in RevertEvents(servers, states, target)
            <==> p in servers && p != target && (p in states ==> states[p] == Normal)
    ensures QueuedFor(RevertEvents(servers, states, target), target) == |RevertEvents(servers, states, target)|
  {
    if servers != [] {
      var last := |servers| - 1;
      RevertEventsAre(servers[..last], states, target, p);
      assert servers == servers[..last] + [servers[last]];
      var events := RevertEvents(servers[..last], states, target);
      assert (events + [RevertEvent(servers[last], target)])[..|events|] == events;
    }
  }

  /** Nobody is asked twice. */
  lemma {:induction false} RevertEventsDiffer(servers: seq<Server>, states: map<Server, RemapState>, target: Server)
    requires forall x, y :: 0 <= x < y < |servers| ==> servers[x] != servers[y]
    ensures var events := RevertEvents(servers, states, target);
            forall x, y :: 0 <= x < y < |events| ==> events[x] != events[y]
  {
    if servers != [] {
      var last := |servers| - 1;
      var before := RevertEvents(servers[..last], states, target);
      RevertEventsDiffer(servers[..last], states, target);
      RevertEventsAre(servers[..last], states, target, servers[last]);
      assert forall x :: 0 <= x < |before| ==> before[x] in before;
    }
  }

  /** The target's own state does not matter. */
  lemma {:induction false} RevertEventsElsewhere(servers: seq<Server>, states: map<Server, RemapState>, target: Server,
                                                 state: RemapState)
    ensures RevertEvents(servers, states[target := state], target) == RevertEvents(servers, states, target)
  {
    if servers != [] {
      RevertEventsElsewhere(servers[..|servers| - 1], states, target, state);
    }
  }

  lemma QueuedForOthers(servers: seq<Server>, states: map<Server, RemapState>, target: Server, t: Server)
    requires t != target
    ensures QueuedFor(RevertEvents(servers, states, target), t) == 0
  {
    RevertEventsAre(servers, states, target, t);
    NoneQueued(RevertEvents(servers, states, target), t);
  }

  lemma {:induction false} NoneQueued(queue: seq<RevertEvent>, t: Server)
    requires forall e :: e in queue ==> e.target != t
    ensures QueuedFor(queue, t) == 0
  {
    if queue != [] {
      assert forall e :: e in queue[..|queue| - 1] ==> e in queue;
      NoneQueued(queue[..|queue| - 1], t);
    }
  }

  /** The acks of a server, or the others, in their order. */
  ghost function AcksOf(acks: seq<AckEntry>, server: Server, own: bool): (r: seq<AckEntry>)
    ensures forall k :: k in r ==> k in acks && (k.server == server) == own
  {
    if acks == [] then []
    else
      var rest := AcksOf(acks[..|acks| - 1], server, own);
      var k := acks[|acks| - 1];
      if (k.server == server) == own then rest + [k] else rest
  }

  lemma {:induction false} AcksForSplit(acks: seq<AckEntry>, server: Server, t: Server)
    ensures AcksFor(acks, t) == AcksFor(AcksOf(acks, server, true), t) + AcksFor(AcksOf(acks, server, false), t)
  {
    if acks != [] {
      var last := |acks| - 1;
      AcksForSplit(acks[..last], server, t);
      var own := acks[last].server == server;
      AcksForAppend(AcksOf(acks[..last], server, own), [acks[last]], t);
      AcksForOne(acks[last], t);
    }
  }

  class RevertClient {
    const servers: seq<Server>
    var states: map<Server, RemapState>
    var completed: set<Server>
    var counters: map<Server, int>
    var queue: seq<RevertEvent>
    var acks: seq<AckEntry>

    /** Every counter is the number of queued events and pending acks that carry it. */
    ghost predicate Valid()
      reads this
    {
      && states.Keys == counters.Keys
      && (forall e :: e in queue ==> e.target in counters)
      && (forall k :: k in acks ==> k.target in counters)
      && (forall t :: t in counters ==> counters[t] == QueuedFor(queue, t) + AcksFor(acks, t))
    }

    /** Asks the other servers to revert: all increments first, then the events go into the queue. */
    method RevertDelta(target: Server)
      requires Valid() && target in counters
      modifies `counters, `queue
      ensures Valid() && queue == old(queue) + RevertEvents(servers, states, target)
      ensures counters == old(counters)[target := old(counters)[target] + |RevertEvents(servers, states, target)|]
    {
      hide RevertEvents, QueuedFor, AcksFor;
      ghost var queued := queue;
      var events := CountEvents(target);
      var j := 0;
      while j < |events|
        invariant 0 <= j <= |events| && queue == queued + events[..j]
        invariant counters == old(counters)[target := old(counters)[target] + |events|]
      {
        queue := queue + [events[j]];
        j := j + 1;
      }
      assert events[..j] == events;
      RevertEventsAre(servers, states, target, target);
      forall t | t in counters ensures counters[t] == QueuedFor(queue, t) + AcksFor(acks, t) {
        QueuedForAppend(queued, events, t);
        if t != target {
          QueuedForOthers(servers, states, target, t);
        }
      }
    }

    /** The first loop: one increment per server to be asked. */
    method CountEvents(target: Server) returns (events: seq<RevertEvent>)
      requires target in counters
      modifies `counters
      ensures events == RevertEvents(servers, states, target)
      ensures counters == old(counters)[target := old(counters)[target] + |events|]
    {
      events := [];
      var j := 0;
      while j < |servers|
        invariant 0 <= j <= |servers| && events == RevertEvents(servers[..j], states, target)
        invariant counters == old(counters)[target := old(counters)[target] + |events|]
      {
        var p := servers[j];
        assert servers[..j + 1][..j] == servers[..j];
        if p != target && !UseCoordinatedFlow(states, p) {
          counters := counters[target := counters[target] + 1];
          events := events + [RevertEvent(p, target)];
        }
        j := j + 1;
      }
      assert servers[..j] == servers;
    }

    /** A worker takes the first event off the queue and notes the ack it will wait for. */
    method Dispatch(requestId: RevertCounters.RequestId)
      requires Valid() && queue != []
      modifies `queue, `acks
      ensures Valid() && queue == old(queue[1..])
      ensures acks == old(acks) + [AckEntry(old(queue[0]).server, requestId, old(queue[0]).target)]
    {
      var event := queue[0];
      var entry := AckEntry(event.server, requestId, event.target);
      forall t ensures QueuedFor(queue, t) + AcksFor(acks, t) == QueuedFor(queue[1..], t) + AcksFor(acks + [entry], t) {
        QueuedForTail(queue, t);
        AcksForAppend(acks, [entry], t);
        AcksForOne(entry, t);
      }
      acks := acks + [entry];
      queue := queue[1..];
    }

    /** An answer takes its ack off the map and counts down; an unknown one is discarded. */
    method HandleDeltaAcknowledgement(server: Server, requestId: RevertCounters.RequestId) returns (found: bool)
      requires Valid()
      modifies `counters, `acks
      ensures Valid()
      ensures found <==> exists k :: k in old(acks) && k.server == server && k.requestId == requestId
      ensures !found ==> acks == old(acks) && counters == old(counters)
      ensures found ==> exists i ::
                && 0 <= i < |old(acks)| && old(acks)[i].server == server && old(acks)[i].requestId == requestId
                && acks == old(acks)[..i] + old(acks)[i + 1..] && old(counters)[old(acks)[i].target] > 0
                && counters == old(counters)[old(acks)[i].target := old(counters)[old(acks)[i].target] - 1]
    {
      hide AcksFor, QueuedFor;
      found := false;
      var it := 0;
      while it < |acks| && !(acks[it].server == server && acks[it].requestId == requestId)
        invariant 0 <= it <= |acks|
        invariant forall i :: 0 <= i < it ==> !(acks[i].server == server && acks[i].requestId == requestId)
      {
        it := it + 1;
      }
      if it < |acks| {
        found := true;
        var target := acks[it].target;
        forall t ensures AcksFor(acks, t) == AcksFor(acks[..it] + acks[it + 1..], t) + if t == target then 1 else 0 {
          AcksForRemoved(acks, it, t);
        }
        assert acks[it] in acks;
        acks := acks[..it] + acks[it + 1..];
        counters := counters[target := counters[target] - 1];
      }
    }

    /** Gives up all acks of a failed server: takes them off the map, then counts down for each. */
    method RemovePending(server: Server)
      requires Valid()
      modifies `counters, `acks
      ensures Valid() && acks == AcksOf(old(acks), server, false)
      ensures counters.Keys == old(counters).Keys
      ensures forall t :: t in counters ==>
                counters[t] == old(counters)[t] - AcksFor(AcksOf(old(acks), server, true), t)
    {
      hide AcksFor, QueuedFor;
      ghost var was := acks;
      var kept: seq<AckEntry>, ackInfoList: seq<AckEntry> := [], [];
      var it := 0;
      while it < |acks|
        invariant 0 <= it <= |acks| && acks == was && counters == old(counters)
        invariant kept == AcksOf(acks[..it], server, false) && ackInfoList == AcksOf(acks[..it], server, true)
      {
        assert acks[..it + 1][..it] == acks[..it];
        if acks[it].server == server {
          ackInfoList := ackInfoList + [acks[it]];
        } else {
          kept := kept + [acks[it]];
        }
        it := it + 1;
      }
      assert acks[..it] == acks;
      acks := kept;
      CountDown(ackInfoList);
      forall t | t in counters ensures AcksFor(was, t) == AcksFor(ackInfoList, t) + AcksFor(kept, t) {
        AcksForSplit(was, server, t);
      }
    }

    /** Decrements the counter of every ack in the list. */
    method CountDown(ackInfoList: seq<AckEntry>)
      requires forall k :: k in ackInfoList ==> k.target in counters
      modifies `counters
      ensures counters.Keys == old(counters).Keys
      ensures forall t :: t in counters ==> counters[t] == old(counters)[t] - AcksFor(ackInfoList, t)
    {
      var it := 0;
      while it < |ackInfoList|
        invariant 0 <= it <= |ackInfoList| && counters.Keys == old(counters).Keys
        invariant forall t :: t in counters ==> counters[t] == old(counters)[t] - AcksFor(ackInfoList[..it], t)
      {
        var target := ackInfoList[it].target;
        assert ackInfoList[it] in ackInfoList;
        assert ackInfoList[..it + 1][..it] == ackInfoList[..it];
        counters := counters[target := counters[target] - 1];
        it := it + 1;
      }
      assert ackInfoList[..it] == ackInfoList;
    }

    /** Whether the coordinator is to be told; then the server waits for it. */
    method CheckAckForServer(server: Server) returns (ack: bool)
      requires Valid() && server in states
      modifies `states
      ensures Valid()
      ensures ack <==> old(states[server]) == Coordinated
                       || (old(states[server]) == Intermediate && server in completed
                           && QueuedFor(queue, server) == 0 && AcksFor(acks, server) == 0)
      ensures states == if !ack then old(states)
                        else old(states)[server := if old(states[server]) == Coordinated
                                                   then WaitNormal else WaitDegraded]
    {
      var state := states[server];
      if state == Normal || (state == Intermediate && (counters[server] > 0 || server !in completed)) {
        return false;
      }
      match state {
        case Intermediate => states := states[server := WaitDegraded];
        case Coordinated => states := states[server := WaitNormal];
        case _ => return false;
      }
      ack := true;
    }

    /** The signal starts a transition, unless it was acknowledged already. */
    ghost predicate Starts(server: Server, signal: RemapState)
      reads `states
    {
      server in states && signal == Intermediate && states[server] != WaitDegraded
    }

    /**
     * A state signalled by the coordinator. A transition already acknowledged is not started again; one that starts
     * waits for the normal requests, if there are any, and for the reverts of the other servers, and gives up what
     * the failed server still owes.
     */
    method SetState(server: Server, signal: RemapState, nothingPending: bool)
      requires Valid()
      modifies `states, `completed, `counters, `queue, `acks
      ensures Valid()
      ensures states == if server !in old(states)
                           || (signal == Intermediate && old(states[server]) == WaitDegraded)
                           || (signal == Coordinated && old(states[server]) == WaitNormal)
                        then old(states) else old(states)[server := signal]
      ensures completed == if !old(Starts(server, signal)) then old(completed)
                           else old(completed) - {server} + if nothingPending then {server} else {}
      ensures queue == if old(Starts(server, signal)) then old(queue) + RevertEvents(servers, old(states), server)
                       else old(queue)
      ensures acks == if old(Starts(server, signal)) then AcksOf(old(acks), server, false) else old(acks)
      ensures !old(Starts(server, signal)) ==> counters == old(counters)
      ensures old(Starts(server, signal)) ==>
                server in old(counters) && counters.Keys == old(counters).Keys
                && forall t :: t in counters ==>
                     counters[t] == old(counters)[t]
                                    + (if t == server then |RevertEvents(servers, old(states), server)| else 0)
                                    - AcksFor(AcksOf(old(acks), server, true), t)
    {
      hide QueuedFor, AcksFor, RevertEvents, AcksOf;
      if server !in states {
        return;
      }
      var state := states[server];
      var next := signal;
      match signal {
        case Intermediate =>
          if state == WaitDegraded {
            next := state;
          } else {
            completed := completed - {server};
            if nothingPending {
              completed := completed + {server};
            }
            RevertDelta(server);
          }
        case Coordinated =>
          if state == WaitNormal {
            next := state;
          }
        case _ =>
      }
      states := states[server := next];
      if states[server] == Intermediate {
        RemovePending(server);
      }
    }
  }
}
