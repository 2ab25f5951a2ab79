/** Whole requests and whole runs: every handler of PendingMaps is a sequence of steps of Replies. */
module ReplyRuns {
  import opened ServerStates
  import opened LargeObjects
  import opened SplitUpdate
  import opened Replies
  import opened PendingMaps
  import opened ReplySteps

  /** The steps, each enabled where it is taken, lead from s to s'. */
  ghost predicate Leads(s: ClientState, steps: seq<Step>, s': ClientState)
    decreases |steps|
  {
    if steps == [] then s' == s
    else Enabled(s, steps[0]) && Leads(Apply(s, steps[0]), steps[1..], s')
  }

  lemma {:induction false} LeadsOn(s: ClientState, a: seq<Step>, mid: ClientState, b: seq<Step>, s': ClientState)
    requires Leads(s, a, mid) && Leads(mid, b, s')
    ensures Leads(s, a + b, s')
    decreases |a|
  {
    hide Enabled, Apply;
    if a == [] {
      assert a + b == b;
    } else {
      assert (a + b)[1..] == a[1..] + b;
      LeadsOn(Apply(s, a[0]), a[1..], mid, b, s');
    }
  }

  lemma LeadsByOne(s: ClientState, a: seq<Step>, mid: ClientState, step: Step)
    requires Leads(s, a, mid) && Enabled(mid, step)
    ensures Leads(s, a + [step], Apply(mid, step))
  {
    hide Enabled, Apply;
    assert Leads(Apply(mid, step), [step][1..], Apply(mid, step));
    LeadsOn(s, a, mid, [step], Apply(mid, step));
  }

  lemma LeadsInOne(s: ClientState, step: Step)
    requires Enabled(s, step)
    ensures Leads(s, [step], Apply(s, step))
  {
    hide Enabled, Apply;
    assert Leads(s, [], s);
    LeadsByOne(s, [], s, step);
    assert [] + [step] == [step];
  }

  lemma {:induction false} LeadsKeepsInv(s: ClientState, steps: seq<Step>, s': ClientState)
    requires Inv(s) && Leads(s, steps, s')
    ensures Inv(s')
    decreases |steps|
  {
    hide Inv, Enabled, Apply;
    if steps != [] {
      StepKeepsInv(s, steps[0]);
      LeadsKeepsInv(Apply(s, steps[0]), steps[1..], s');
    }
  }

  // ----- UPDATE -----

  ghost function Sends(r: RequestId, pieces: seq<Piece>, serverOf: nat -> Server): seq<Step> {
    if pieces == [] then []
    else
      var last := |pieces| - 1;
      Sends(r, pieces[..last], serverOf) + [Send(r, serverOf(pieces[last].splitIndex))]
  }

  ghost function AfterSends(f: Maps, app: ApplicationId, r: RequestId, pieces: seq<Piece>,
                            serverOf: nat -> Server): Maps {
    f.(serverUpdate := f.serverUpdate + PieceEntries(app, r, pieces, serverOf))
  }

  lemma AfterOneSend(f: Maps, app: ApplicationId, r: RequestId, pieces: seq<Piece>, serverOf: nat -> Server, q: Request)
    requires pieces != [] && !q.isSet && q.app == app
    ensures var last := |pieces| - 1;
            AfterSend(AfterSends(f, app, r, pieces[..last], serverOf), r, serverOf(pieces[last].splitIndex), q)
            == AfterSends(f, app, r, pieces, serverOf)
  {
  }

  /** The sending loop is one step for each piece. */
  lemma {:induction false} SendsAreSteps(f: Maps, s: ClientState, r: RequestId, pieces: seq<Piece>,
                                         serverOf: nat -> Server)
    returns (s': ClientState)
    requires Inv(s) && Represents(f, s) && r in s.requests && !s.requests[r].isSet
    requires PieceServers(pieces, serverOf) <= s.requests[r].unsent
    ensures Leads(s, Sends(r, pieces, serverOf), s') && Inv(s') && r in s'.requests
    ensures Represents(AfterSends(f, s.requests[r].app, r, pieces, serverOf), s')
    ensures var q, q' := s.requests[r], s'.requests[r];
            !q'.isSet && q'.app == q.app && q'.unsent == q.unsent - PieceServers(pieces, serverOf)
  {
    var q := s.requests[r];
    if pieces == [] {
      s' := s;
      assert AfterSends(f, q.app, r, pieces, serverOf) == f;
    } else {
      hide Inv, Represents, Leads, AfterSends, AfterSend, Enabled, Apply;
      var last := |pieces| - 1;
      var p := serverOf(pieces[last].splitIndex);
      var mid := SendsAreSteps(f, s, r, pieces[..last], serverOf);
      assert PieceServers(pieces, serverOf) == PieceServers(pieces[..last], serverOf) + multiset{p};
      assert p in mid.requests[r].unsent;
      s' := OneSend(AfterSends(f, q.app, r, pieces[..last], serverOf), mid, r, p);
      AfterOneSend(f, q.app, r, pieces, serverOf, mid.requests[r]);
      LeadsByOne(s, Sends(r, pieces[..last], serverOf), mid, Send(r, p));
      OneMoreTaken(q.unsent, PieceServers(pieces[..last], serverOf), p);
    }
  }

  lemma OneMoreTaken(unsent: multiset<Server>, sent: multiset<Server>, p: Server)
    ensures unsent - (sent + multiset{p}) == unsent - sent - multiset{p}
  {
  }

  lemma OneSend(f: Maps, s: ClientState, r: RequestId, p: Server) returns (s': ClientState)
    requires Inv(s) && Represents(f, s) && r in s.requests && !s.requests[r].isSet && p in s.requests[r].unsent
    ensures Enabled(s, Send(r, p)) && s' == Apply(s, Send(r, p))
    ensures Inv(s') && Represents(AfterSend(f, r, p, s.requests[r]), s') && r in s'.requests
    ensures var q, q' := s.requests[r], s'.requests[r];
            !q'.isSet && q'.app == q.app && q'.unsent == q.unsent - multiset{p}
  {
    hide Inv, Represents;
    SendIsStep(f, s, r, p);
    StepKeepsInv(s, Send(r, p));
    s' := Apply(s, Send(r, p));
  }

  lemma {:induction false} ServersPerPiece(pieces: seq<Piece>, serverOf: nat -> Server)
    ensures |PieceServers(pieces, serverOf)| == |pieces|
  {
    if pieces != [] {
      ServersPerPiece(pieces[..|pieces| - 1], serverOf);
    }
  }

  ghost function UpdateSteps(r: RequestId, app: ApplicationId, pieces: seq<Piece>, serverOf: nat -> Server): seq<Step> {
    [StartUpdate(r, app, PieceServers(pieces, serverOf))] + Sends(r, pieces, serverOf)
  }

  ghost function AfterUpdateRequest(f: Maps, r: RequestId, app: ApplicationId, pieces: seq<Piece>,
                                    serverOf: nat -> Server): Maps {
    f.(applicationUpdate := f.applicationUpdate[app := |pieces|],
       serverUpdate := f.serverUpdate + PieceEntries(app, r, pieces, serverOf))
  }

  /** HandleUpdateRequest is the starting step with as many messages as there are pieces, then a step for each. */
  lemma UpdateRequestIsSteps(f: Maps, s: ClientState, r: RequestId, app: ApplicationId, pieces: seq<Piece>,
                             serverOf: nat -> Server)
    returns (s': ClientState)
    requires Inv(s) && Represents(f, s) && Enabled(s, StartUpdate(r, app, PieceServers(pieces, serverOf)))
    ensures Leads(s, UpdateSteps(r, app, pieces, serverOf), s') && Inv(s')
    ensures Represents(AfterUpdateRequest(f, r, app, pieces, serverOf), s')
    ensures r in s'.requests && s'.requests[r].unsent == multiset{}
  {
    hide Inv, Represents, Leads;
    var servers := PieceServers(pieces, serverOf);
    var start := StartUpdate(r, app, servers);
    ServersPerPiece(pieces, serverOf);
    UpdateStartIsStep(f, s, r, app, servers);
    StepKeepsInv(s, start);
    LeadsInOne(s, start);
    var f' := f.(applicationUpdate := f.applicationUpdate[app := |servers|]);
    s' := SendsAreSteps(f', Apply(s, start), r, pieces, serverOf);
    LeadsOn(s, [start], Apply(s, start), Sends(r, pieces, serverOf), s');
  }

  /**
   * Once all its responses are handled an UPDATE has been answered, unless it was empty and started a split of a
   * large object: then it is never answered.
   */
  lemma UpdateAnsweredIff(trace: seq<ClientState>, steps: seq<Step>, start: nat, i: nat, r: RequestId,
                          app: ApplicationId, pieces: seq<Piece>, serverOf: nat -> Server,
                          chunkSize: nat, keySize: nat, updateOffset: nat, updateSize: nat)
    requires Run(trace, steps) && start < i < |trace|
    requires steps[start] == StartUpdate(r, app, PieceServers(pieces, serverOf))
    requires HasRoom(chunkSize, keySize, updateOffset + updateSize)
    requires ArePieces(pieces, chunkSize, keySize, updateOffset, updateSize)
    ensures r in trace[i].requests
    ensures var nothing := updateSize == 0 && IsLarge(chunkSize, keySize, updateOffset)
                           && updateOffset % SplitSize(chunkSize, keySize, updateOffset) == 0;
            trace[i].replies[app] == if Done(trace[i].requests[r]) && !nothing then 1 else 0
  {
    hide ArePieces, Done, Consistent;
    assert Next(trace[start], steps[start], trace[start + 1]);
    hide Run;
    RequestStays(trace, steps, start + 1, i, r);
    ServersPerPiece(pieces, serverOf);
    NoPiecesIff(pieces, chunkSize, keySize, updateOffset, updateSize);
    AnsweredOnceWhenDone(trace, steps, i, r);
  }

  // ----- runs -----

  /** What a worker thread handles; SendSet sends a message of a SET that has been entered before. */
  datatype Call =
      SetRequest(r: RequestId, app: ApplicationId, data: seq<Server>, parity: seq<Server>, chunkId: nat, numSplit: nat)
    | SendSet(r: RequestId, p: Server)
    | UpdateRequest(r: RequestId, app: ApplicationId, chunkSize: nat, keySize: nat, updateOffset: nat, updateSize: nat,
                    serverOf: nat -> Server)
    | SetResponse(r: RequestId, p: Server)
    | UpdateResponse(r: RequestId, p: Server)

  /** Request and application ids are new, and servers respond to what was sent. */
  ghost predicate Legit(s: ClientState, call: Call) {
    match call
    case SetRequest(r, app, data, parity, chunkId, numSplit) =>
      |data| > 0 && Enabled(s, StartSet(r, app, SetServers(data, parity, chunkId, numSplit)))
    case SendSet(r, p) => Enabled(s, Send(r, p)) && s.requests[r].isSet
    case UpdateRequest(r, app, chunkSize, keySize, updateOffset, updateSize, _) =>
      HasRoom(chunkSize, keySize, updateOffset + updateSize) && Enabled(s, StartUpdate(r, app, multiset{}))
    case SetResponse(r, p) => Enabled(s, Respond(r, p)) && s.requests[r].isSet
    case UpdateResponse(r, p) => Enabled(s, Respond(r, p)) && !s.requests[r].isSet
  }

  /** A request with new ids may come at any time, and so may the response to a message that was sent. */
  lemma LegitCalls(s: ClientState, r: RequestId, app: ApplicationId, data: seq<Server>, parity: seq<Server>,
                   chunkId: nat, numSplit: nat, p: Server)
    ensures r !in s.requests && app !in s.apps && app !in s.replies && |data| > 0 && numSplit > 0
            && (forall x :: x in s.requests ==> s.requests[x].app != app) ==>
              Legit(s, SetRequest(r, app, data, parity, chunkId, numSplit))
    ensures r in s.requests && p in s.requests[r].wire ==>
              Legit(s, if s.requests[r].isSet then SetResponse(r, p) else UpdateResponse(r, p))
  {
    if |data| > 0 {
      SetFanOut(data, parity, chunkId, numSplit);
    }
  }

  /** The steps of a call; the pieces are those of an UPDATE. */
  ghost function StepsOf(s: ClientState, call: Call, pieces: seq<Piece>): seq<Step>
    requires Legit(s, call)
  {
    match call
    case SetRequest(r, app, data, parity, chunkId, numSplit) =>
      [StartSet(r, app, SetServers(data, parity, chunkId, numSplit))]
    case SendSet(r, p) => [Send(r, p)]
    case UpdateRequest(r, app, _, _, _, _, serverOf) => UpdateSteps(r, app, pieces, serverOf)
    case SetResponse(r, p) => [Respond(r, p)] + if s.requests[r].entries == multiset{p} then [Finish(r)] else []
    case UpdateResponse(r, p) => [Respond(r, p)] + [Finish(r)]
  }

  ghost predicate IsSplitInto(call: Call, pieces: seq<Piece>) {
    call.UpdateRequest? && HasRoom(call.chunkSize, call.keySize, call.updateOffset + call.updateSize) ==>
      ArePieces(pieces, call.chunkSize, call.keySize, call.updateOffset, call.updateSize)
  }

  ghost function FieldsOf(pending: Pending): Maps
    reads pending
  {
    Maps(pending.serverSet, pending.serverUpdate, pending.applicationSet, pending.applicationUpdate, pending.replies)
  }

  method HandleSet(pending: Pending, call: Call, ghost s: ClientState) returns (ghost s': ClientState)
    requires Inv(s) && Represents(FieldsOf(pending), s) && Legit(s, call) && call.SetRequest?
    modifies pending
    ensures Inv(s') && Represents(FieldsOf(pending), s') && Leads(s, StepsOf(s, call, []), s')
  {
    hide Inv, Represents, Entered, OnlyAdded, Leads;
    ghost var f := FieldsOf(pending);
    ghost var servers := SetServers(call.data, call.parity, call.chunkId, call.numSplit);
    pending.HandleSetRequest(call.app, call.r, call.data, call.parity, call.chunkId, call.numSplit);
    SetRequestIsStep(f, s, call.r, call.app, servers, pending.serverSet);
    StepKeepsInv(s, StartSet(call.r, call.app, servers));
    LeadsInOne(s, StartSet(call.r, call.app, servers));
    s' := Apply(s, StartSet(call.r, call.app, servers));
  }

  method HandleUpdate(pending: Pending, call: Call, ghost s: ClientState)
    returns (ghost s': ClientState, ghost pieces: seq<Piece>)
    requires Inv(s) && Represents(FieldsOf(pending), s) && Legit(s, call) && call.UpdateRequest?
    modifies pending
    ensures Inv(s') && Represents(FieldsOf(pending), s') && Leads(s, StepsOf(s, call, pieces), s')
    ensures ArePieces(pieces, call.chunkSize, call.keySize, call.updateOffset, call.updateSize)
  {
    hide Inv, Represents, Entered, Leads, ArePieces;
    ghost var f := FieldsOf(pending);
    var sent := pending.HandleUpdateRequest(call.app, call.r, call.chunkSize, call.keySize, call.updateOffset,
                                            call.updateSize, call.serverOf);
    pieces := sent;
    s' := UpdateRequestIsSteps(f, s, call.r, call.app, pieces, call.serverOf);
  }

  /** A response that is due finds its entry. */
  lemma DueIsEntered(f: Maps, s: ClientState, r: RequestId, p: Server)
    requires Inv(s) && Represents(f, s) && Enabled(s, Respond(r, p))
    ensures var q := s.requests[r];
            && p in q.entries && q.entries == EntriesOf(if q.isSet then f.serverSet else f.serverUpdate, r)
            && (q.entries == multiset{p} <==> q.entries - multiset{p} == multiset{})
  {
    hide EntriesOf, Owned;
    assert Held(f, r, s.requests[r]);
    RespondedConsistent(s.requests[r], p, s.requests[r].app in s.apps, s.replies[s.requests[r].app]);
  }

  method HandleSetAnswer(pending: Pending, call: Call, ghost s: ClientState) returns (ghost s': ClientState)
    requires Inv(s) && Represents(FieldsOf(pending), s) && Legit(s, call) && call.SetResponse?
    modifies pending
    ensures Inv(s') && Represents(FieldsOf(pending), s') && Leads(s, StepsOf(s, call, []), s')
  {
    hide Inv, Represents, EntriesOf, Leads;
    ghost var f := FieldsOf(pending);
    ghost var r, p := call.r, call.p;
    DueIsEntered(f, s, r, p);
    var found := pending.HandleSetResponse(call.r, call.p);
    ghost var f' := FieldsOf(pending);
    ghost var parent :| Entry(r, p, parent) in f.serverSet && SetResponded(f, f', r, p, parent);
    SetResponseIsSteps(f, s, r, p, parent, f');
    assert EntriesOf(f.serverSet, r) == EntriesOf(f'.serverSet, r) + multiset{p};
    s' := Apply(s, Respond(r, p));
    LeadsInOne(s, Respond(r, p));
    StepKeepsInv(s, Respond(r, p));
    if s.requests[r].entries == multiset{p} {
      LeadsByOne(s, [Respond(r, p)], s', Finish(r));
      StepKeepsInv(s', Finish(r));
      s' := Apply(s', Finish(r));
    } else {
      assert [Respond(r, p)] + [] == [Respond(r, p)];
    }
  }

  method HandleUpdateAnswer(pending: Pending, call: Call, ghost s: ClientState) returns (ghost s': ClientState)
    requires Inv(s) && Represents(FieldsOf(pending), s) && Legit(s, call) && call.UpdateResponse?
    modifies pending
    ensures Inv(s') && Represents(FieldsOf(pending), s') && Leads(s, StepsOf(s, call, []), s')
  {
    hide Inv, Represents, EntriesOf, Leads;
    ghost var f := FieldsOf(pending);
    ghost var r, p := call.r, call.p;
    DueIsEntered(f, s, r, p);
    var found := pending.HandleUpdateResponse(call.r, call.p);
    ghost var f' := FieldsOf(pending);
    ghost var parent :| Entry(r, p, parent) in f.serverUpdate && UpdateResponded(f, f', r, p, parent);
    UpdateResponseIsSteps(f, s, r, p, parent, f');
    s' := Apply(s, Respond(r, p));
    LeadsInOne(s, Respond(r, p));
    StepKeepsInv(s, Respond(r, p));
    LeadsByOne(s, [Respond(r, p)], s', Finish(r));
    StepKeepsInv(s', Finish(r));
    s' := Apply(s', Finish(r));
  }

  /** Any handler, called when it may be, takes the maps from one represented state to another by its steps. */
  method Handle(pending: Pending, call: Call, ghost s: ClientState)
    returns (ghost s': ClientState, ghost pieces: seq<Piece>)
    requires Inv(s) && Represents(FieldsOf(pending), s) && Legit(s, call)
    modifies pending
    ensures Inv(s') && Represents(FieldsOf(pending), s') && Leads(s, StepsOf(s, call, pieces), s')
    ensures IsSplitInto(call, pieces)
  {
    pieces := [];
    match call {
      case SetRequest(_, _, _, _, _, _) => s' := HandleSet(pending, call, s);
      case SendSet(r, p) =>
        SendIsStep(FieldsOf(pending), s, r, p);
        LeadsInOne(s, Send(r, p));
        StepKeepsInv(s, Send(r, p));
        s' := Apply(s, Send(r, p));
      case UpdateRequest(_, _, _, _, _, _, _) => s', pieces := HandleUpdate(pending, call, s);
      case SetResponse(_, _) => s' := HandleSetAnswer(pending, call, s);
      case UpdateResponse(_, _) => s' := HandleUpdateAnswer(pending, call, s);
    }
  }

  /** Every call may be made where the steps of those before it lead. */
  ghost predicate AllLegit(s: ClientState, calls: seq<Call>)
    decreases |calls|
  {
    calls != [] ==>
      && Legit(s, calls[0])
      && forall s': ClientState, pieces: seq<Piece> ::
           Leads(s, StepsOf(s, calls[0], pieces), s') && IsSplitInto(calls[0], pieces) ==> AllLegit(s', calls[1..])
  }

  /** A whole run: the handlers, called in any order in which they may be, make the steps of the state machine. */
  method Serve(pending: Pending, calls: seq<Call>, ghost s: ClientState)
    returns (ghost s': ClientState, ghost steps: seq<Step>)
    requires Inv(s) && Represents(FieldsOf(pending), s) && AllLegit(s, calls)
    modifies pending
    ensures Inv(s') && Represents(FieldsOf(pending), s') && Leads(s, steps, s')
  {
    hide Inv, Represents, Leads, Legit, StepsOf, IsSplitInto;
    s', steps := s, [];
    assert Leads(s, [], s) by {
      NoSteps(s);
    }
    var i := 0;
    while i < |calls|
      invariant 0 <= i <= |calls| && AllLegit(s', calls[i..])
      invariant Inv(s') && Represents(FieldsOf(pending), s') && Leads(s, steps, s')
    {
      assert calls[i..][1..] == calls[i + 1..];
      ghost var mid := s';
      ghost var pieces;
      s', pieces := Handle(pending, calls[i], mid);
      LeadsOn(s, steps, mid, StepsOf(mid, calls[i], pieces), s');
      steps := steps + StepsOf(mid, calls[i], pieces);
      i := i + 1;
    }
  }

  lemma NoSteps(s: ClientState)
    ensures Leads(s, [], s)
  {
  }
}
