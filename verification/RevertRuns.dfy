/** Whole runs of the handlers of RevertHandling. */
module RevertRuns {
  import opened ServerStates
  import opened RevertCounters
  import opened RevertHandling
  import opened RevertSteps

  /** What a thread of the client does next. */
  datatype Call =
      Revert(target: Server)
    | NextEvent
    | Answer(server: Server, requestId: RequestId)
    | GiveUp(server: Server)
    | Check(server: Server)
    | Signalled(server: Server, signal: RemapState, nothingPending: bool)

  ghost function FieldsOf(client: RevertClient): Fields
    reads client
  {
    Fields(client.states, client.completed, client.counters, client.queue, client.acks)
  }

  lemma {:induction false} LeadsKeepsInv(s: ClientState, steps: seq<Step>, s': ClientState)
    requires Inv(s) && Leads(s, steps, s')
    ensures Inv(s')
    decreases |steps|
  {
    hide Inv, Enabled, Apply;
    if steps != [] {
      StepKeepsInv(s, steps[0]);
      LeadsKeepsInv(Apply(s, steps[0]), steps[1..], s');
    }
  }

  method HandleRevert(client: RevertClient, target: Server, ghost s: ClientState)
    returns (ghost s': ClientState, ghost steps: seq<Step>)
    requires client.Valid() && Represents(FieldsOf(client), s) && target in client.counters
    modifies client
    ensures client.Valid() && Represents(FieldsOf(client), s') && Leads(s, steps, s') && client.acks == old(client.acks)
  {
    hide RevertClient.Valid, Represents, Leads;
    ghost var f := FieldsOf(client);
    RevertDeltaIsSteps(f, s, target, client.servers);
    steps := StagesAndEnqueues(RevertEvents(client.servers, f.states, target));
    s' :| Leads(s, steps, s') && Represents(AfterDelta(f, target, RevertEvents(client.servers, f.states, target)), s');
    client.RevertDelta(target);
  }

  method HandleNextEvent(client: RevertClient, nextId: RequestId, ghost s: ClientState)
    returns (ghost s': ClientState, ghost steps: seq<Step>)
    requires client.Valid() && Represents(FieldsOf(client), s) && client.queue != []
    requires forall k :: k in client.acks ==> k.requestId < nextId
    modifies client
    ensures client.Valid() && Represents(FieldsOf(client), s') && Leads(s, steps, s')
    ensures forall k :: k in client.acks ==> k.requestId < nextId + 1
  {
    hide RevertClient.Valid, Represents, Leads, Enabled, Apply;
    ghost var f := FieldsOf(client);
    ghost var step := Step.Dispatch(f.queue[0].target, f.queue[0].server, nextId);
    DispatchIsStep(f, s, nextId);
    LeadsInOne(s, step);
    s', steps := Apply(s, step), [step];
    client.Dispatch(nextId);
  }

  lemma AnswerSteps(f: Fields, s: ClientState, i: nat) returns (s': ClientState, steps: seq<Step>)
    requires Represents(f, s) && i < |f.acks| && f.acks[i].target in f.counters
    ensures Leads(s, steps, s')
    ensures Represents(f.(acks := f.acks[..i] + f.acks[i + 1..],
                          counters := f.counters[f.acks[i].target := f.counters[f.acks[i].target] - 1]), s')
  {
    hide Represents, Leads, Enabled, Apply;
    AcknowledgementIsSteps(f, s, i);
    var erase, decrement := EraseAck(f.acks[i].target, AckOf(f.acks[i])), Decrement(f.acks[i].target);
    LeadsInOne(s, erase);
    LeadsByOne(s, [erase], Apply(s, erase), decrement);
    s', steps := Apply(Apply(s, erase), decrement), [erase] + [decrement];
  }

  method HandleAnswer(client: RevertClient, server: Server, requestId: RequestId, ghost s: ClientState)
    returns (ghost s': ClientState, ghost steps: seq<Step>)
    requires client.Valid() && Represents(FieldsOf(client), s)
    modifies client
    ensures client.Valid() && Represents(FieldsOf(client), s') && Leads(s, steps, s')
    ensures forall k :: k in client.acks ==> k in old(client.acks)
  {
    hide RevertClient.Valid, Represents, Leads, Enabled, Apply;
    ghost var f := FieldsOf(client);
    TargetsCounted(f, s);
    var found := client.HandleDeltaAcknowledgement(server, requestId);
    s', steps := s, [];
    if found {
      ghost var i :|
        && 0 <= i < |f.acks| && f.acks[i] in f.acks && f.acks[i].server == server && f.acks[i].requestId == requestId
        && client.acks == f.acks[..i] + f.acks[i + 1..]
        && client.counters == f.counters[f.acks[i].target := f.counters[f.acks[i].target] - 1];
      s', steps := AnswerSteps(f, s, i);
    } else {
      NoSteps(s);
    }
  }

  lemma TargetsCounted(f: Fields, s: ClientState)
    requires Represents(f, s)
    ensures forall k :: k in f.acks ==> k.target in f.counters
  {
  }

  lemma NoSteps(s: ClientState)
    ensures Leads(s, [], s)
  {
  }

  method HandleGiveUp(client: RevertClient, server: Server, ghost s: ClientState)
    returns (ghost s': ClientState, ghost steps: seq<Step>)
    requires client.Valid() && Represents(FieldsOf(client), s)
    modifies client
    ensures client.Valid() && Represents(FieldsOf(client), s') && Leads(s, steps, s')
    ensures forall k :: k in client.acks ==> k in old(client.acks)
  {
    hide RevertClient.Valid, Represents, Leads, AcksFor;
    ghost var f := FieldsOf(client);
    client.RemovePending(server);
    RemovePendingIsSteps(f, s, server, client.counters);
    steps := [EraseAcksOf(server)] + Decrements(AcksOf(f.acks, server, true));
    s' :| Leads(s, steps, s') && Represents(AfterRemoval(f, server, client.counters), s');
  }

  method HandleCheck(client: RevertClient, server: Server, ghost s: ClientState)
    returns (ghost s': ClientState, ghost steps: seq<Step>)
    requires client.Valid() && Represents(FieldsOf(client), s) && server in client.counters
    modifies client
    ensures client.Valid() && Represents(FieldsOf(client), s') && Leads(s, steps, s') && client.acks == old(client.acks)
  {
    hide Represents, Leads, Enabled, Apply, QueuedFor, AcksFor;
    ghost var f := FieldsOf(client);
    var ack := client.CheckAckForServer(server);
    CheckIsStep(f, s, server, ack);
    LeadsInOne(s, CheckAck(server));
    s', steps := Apply(s, CheckAck(server)), [CheckAck(server)];
  }

  /** A signalled state: the signal's steps, then those of a transition that starts. */
  method HandleSignal(client: RevertClient, server: Server, signal: RemapState, nothingPending: bool,
                      ghost s: ClientState)
    returns (ghost s': ClientState, ghost steps: seq<Step>)
    requires client.Valid() && Represents(FieldsOf(client), s) && server in client.states
    modifies client
    ensures client.Valid() && Represents(FieldsOf(client), s') && Leads(s, steps, s')
    ensures forall k :: k in client.acks ==> k in old(client.acks)
  {
    hide RevertClient.Valid, Represents, Leads, AcksFor, RevertEvents, StartSteps;
    ghost var f := FieldsOf(client);
    SignalIsSteps(f, s, server, signal, nothingPending);
    ghost var note := IsStart(f, server, signal) && nothingPending;
    steps := [Signal(server, signal)] + if note then [SetCompleted(server, true)] else [];
    s' :| Leads(s, steps, s') && Represents(AfterSetState(f, server, signal, nothingPending), s');
    client.SetState(server, signal, nothingPending);
    ghost var f' := AfterSetState(f, server, signal, nothingPending);
    assert f.states[server := f.states[server]] == f.states;
    assert f'.states == client.states;
    if IsStart(f, server, signal) {
      RevertEventsElsewhere(client.servers, f.states, server, signal);
      StartIsSteps(f', s', server, client.servers, client.counters);
      ghost var mid, before := s', steps;
      s' :| Leads(mid, StartSteps(f', server, client.servers), s')
            && Represents(AfterStart(f', server, client.servers, client.counters), s');
      LeadsOn(s, before, mid, StartSteps(f', server, client.servers), s');
      steps := before + StartSteps(f', server, client.servers);
    }
  }

  /** The handlers, called in any order, make the steps of the state machine; request ids are counted up. */
  method Serve(client: RevertClient, calls: seq<Call>, firstId: RequestId, ghost s: ClientState)
    returns (ghost s': ClientState, ghost steps: seq<Step>)
    requires client.Valid() && Inv(s) && Represents(FieldsOf(client), s)
    requires forall k :: k in client.acks ==> k.requestId < firstId
    modifies client
    ensures client.Valid() && Inv(s') && Represents(FieldsOf(client), s') && Leads(s, steps, s')
  {
    hide RevertClient.Valid, Inv, Represents, Leads;
    s', steps := s, [];
    NoSteps(s);
    var nextId := firstId;
    var i := 0;
    while i < |calls|
      invariant 0 <= i <= |calls| && client.Valid() && Represents(FieldsOf(client), s') && Leads(s, steps, s')
      invariant forall k :: k in client.acks ==> k.requestId < nextId
    {
      ghost var mid, more := s', [];
      NoSteps(mid);
      match calls[i] {
        case Revert(target) =>
          if target in client.counters {
            s', more := HandleRevert(client, target, mid);
          }
        case NextEvent =>
          if client.queue != [] {
            s', more := HandleNextEvent(client, nextId, mid);
            nextId := nextId + 1;
          }
        case Answer(server, requestId) => s', more := HandleAnswer(client, server, requestId, mid);
        case GiveUp(server) => s', more := HandleGiveUp(client, server, mid);
        case Check(server) =>
          if server in client.counters {
            s', more := HandleCheck(client, server, mid);
          }
        case Signalled(server, signal, nothingPending) =>
          if server in client.states {
            s', more := HandleSignal(client, server, signal, nothingPending, mid);
          }
      }
      LeadsOn(s, steps, mid, more, s');
      steps := steps + more;
      i := i + 1;
    }
    LeadsKeepsInv(s, steps, s');
  }
}
