/** The handlers of PendingMaps are steps of the interleavings of Replies. */
module ReplySteps {
  import opened ServerStates
  import opened Replies
  import opened PendingMaps

  /** The fields of Pending. */
  datatype Maps = Maps(
    serverSet: seq<Entry>,
    serverUpdate: seq<Entry>,
    applicationSet: set<ApplicationId>,
    applicationUpdate: map<ApplicationId, int>,
    replies: seq<ApplicationId>)

  /** Every entry belongs to a request of this kind. */
  ghost predicate Owned(entries: seq<Entry>, isSet: bool, s: ClientState) {
    forall e :: e in entries ==>
      e.requestId in s.requests && s.requests[e.requestId].isSet == isSet && s.requests[e.requestId].app == e.parent
  }

  /** What the maps hold for one request. */
  ghost predicate Held(f: Maps, r: RequestId, q: Request) {
    && q.entries == EntriesOf(if q.isSet then f.serverSet else f.serverUpdate, r)
    && q.finishing == 0
    && (if q.isSet then q.app !in f.applicationUpdate
        else q.app !in f.applicationSet
             && (q.app in f.applicationUpdate ==> f.applicationUpdate[q.app] == q.remaining))
  }

  /** The maps between two handlers: no response is on its way from a server map to an application's entry. */
  ghost predicate Represents(f: Maps, s: ClientState) {
    && Owned(f.serverSet, true, s) && Owned(f.serverUpdate, false, s)
    && (forall r :: r in s.requests ==> Held(f, r, s.requests[r]))
    && s.apps == f.applicationSet + f.applicationUpdate.Keys
    && s.replies == multiset(f.replies)
  }

  lemma InitiallyRepresented()
    ensures Represents(Maps([], [], {}, map[], []), ClientState(map[], {}, multiset{}))
  {
  }

  lemma NoEntries(entries: seq<Entry>, isSet: bool, s: ClientState, r: RequestId)
    requires Owned(entries, isSet, s) && (r in s.requests ==> s.requests[r].isSet != isSet)
    ensures EntriesOf(entries, r) == multiset{}
  {
    forall p
      ensures p !in EntriesOf(entries, r)
    {
      InEntries(entries, r, p);
    }
  }

  /** Only request r and its application's entry are touched. */
  ghost predicate SameElsewhere(f: Maps, f': Maps, r: RequestId, app: ApplicationId) {
    && (forall x :: x != r ==> EntriesOf(f'.serverSet, x) == EntriesOf(f.serverSet, x))
    && (forall x :: x != r ==> EntriesOf(f'.serverUpdate, x) == EntriesOf(f.serverUpdate, x))
    && f'.applicationSet - {app} == f.applicationSet - {app}
    && f'.applicationUpdate - {app} == f.applicationUpdate - {app}
  }

  /** Entries of r for app are the only new ones, and they are of this kind. */
  ghost predicate Grown(f: Maps, f': Maps, r: RequestId, q: Request) {
    && (forall e :: e in f'.serverSet ==> e in f.serverSet || (q.isSet && e.requestId == r && e.parent == q.app))
    && (forall e :: e in f'.serverUpdate ==> e in f.serverUpdate || (!q.isSet && e.requestId == r && e.parent == q.app))
  }

  /** No other request serves the application request of q. */
  ghost predicate OwnApp(s: ClientState, r: RequestId, q: Request) {
    && (forall x :: x in s.requests && x != r ==> s.requests[x].app != q.app)
    && (r in s.requests ==> s.requests[r].app == q.app && s.requests[r].isSet == q.isSet)
  }

  lemma OtherHeld(f: Maps, f': Maps, r: RequestId, app: ApplicationId, x: RequestId, q: Request)
    requires SameElsewhere(f, f', r, app) && x != r && q.app != app && Held(f, x, q)
    ensures Held(f', x, q)
  {
    hide EntriesOf;
    assert q.app in f.applicationSet <==> q.app in f.applicationSet - {app};
    assert q.app in f'.applicationSet <==> q.app in f'.applicationSet - {app};
    assert q.app in f.applicationUpdate <==> q.app in f.applicationUpdate - {app};
    assert q.app in f'.applicationUpdate <==> q.app in f'.applicationUpdate - {app};
    if q.app in f.applicationUpdate {
      assert (f'.applicationUpdate - {app})[q.app] == (f.applicationUpdate - {app})[q.app];
    }
  }

  /** It is enough to look at the request that has taken the step. */
  lemma OneRequestChanged(f: Maps, f': Maps, s: ClientState, s': ClientState, r: RequestId, q: Request)
    requires Represents(f, s) && OwnApp(s, r, q) && SameElsewhere(f, f', r, q.app) && Grown(f, f', r, q)
    requires s'.requests == s.requests[r := q] && Held(f', r, q)
    requires s'.apps == f'.applicationSet + f'.applicationUpdate.Keys && s'.replies == multiset(f'.replies)
    ensures Represents(f', s')
  {
    hide EntriesOf, Held, SameElsewhere;
    forall x | x in s'.requests
      ensures Held(f', x, s'.requests[x])
    {
      if x != r {
        OtherHeld(f, f', r, q.app, x, s.requests[x]);
      }
    }
  }

  /** A SET enters all its messages: the starting step. */
  lemma SetRequestIsStep(f: Maps, s: ClientState, r: RequestId, app: ApplicationId, servers: multiset<Server>,
                         now: seq<Entry>)
    requires Represents(f, s) && Enabled(s, StartSet(r, app, servers))
    requires Entered(f.serverSet, now, r, servers) && OnlyAdded(f.serverSet, now, r, app)
    ensures Represents(f.(serverSet := now, applicationSet := f.applicationSet + {app}),
                       Apply(s, StartSet(r, app, servers)))
  {
    NoEntries(f.serverSet, true, s, r);
    hide EntriesOf;
    var f' := f.(serverSet := now, applicationSet := f.applicationSet + {app});
    var q := StartedSet(app, servers);
    assert OwnApp(s, r, q) && SameElsewhere(f, f', r, app) && Grown(f, f', r, q) && Held(f', r, q);
    OneRequestChanged(f, f', s, Apply(s, StartSet(r, app, servers)), r, q);
  }

  /** An UPDATE enters the number of its messages: the starting step. */
  lemma UpdateStartIsStep(f: Maps, s: ClientState, r: RequestId, app: ApplicationId, servers: multiset<Server>)
    requires Represents(f, s) && Enabled(s, StartUpdate(r, app, servers))
    ensures Represents(f.(applicationUpdate := f.applicationUpdate[app := |servers|]),
                       Apply(s, StartUpdate(r, app, servers)))
  {
    NoEntries(f.serverUpdate, false, s, r);
    hide EntriesOf;
    var f' := f.(applicationUpdate := f.applicationUpdate[app := |servers|]);
    var q := StartedUpdate(app, servers);
    assert OwnApp(s, r, q) && SameElsewhere(f, f', r, app) && Grown(f, f', r, q) && Held(f', r, q);
    OneRequestChanged(f, f', s, Apply(s, StartUpdate(r, app, servers)), r, q);
  }

  lemma OwnAppOf(s: ClientState, r: RequestId)
    requires Inv(s) && r in s.requests
    ensures OwnApp(s, r, s.requests[r])
  {
    hide Consistent;
  }

  ghost function AfterSend(f: Maps, r: RequestId, p: Server, q: Request): Maps {
    if q.isSet then f else f.(serverUpdate := f.serverUpdate + [Entry(r, p, q.app)])
  }

  lemma SentHeld(f: Maps, r: RequestId, p: Server, q: Request)
    requires Held(f, r, q)
    ensures var f' := AfterSend(f, r, p, q);
            Held(f', r, Sent(q, p)) && SameElsewhere(f, f', r, q.app) && Grown(f, f', r, Sent(q, p))
  {
    EnteredOne(f.serverUpdate, Entry(r, p, q.app));
    hide EntriesOf;
  }

  /** Sending a message of an UPDATE enters it; one of a SET has been entered before. */
  lemma SendIsStep(f: Maps, s: ClientState, r: RequestId, p: Server)
    requires Inv(s) && Represents(f, s) && Enabled(s, Send(r, p))
    ensures Represents(AfterSend(f, r, p, s.requests[r]), Apply(s, Send(r, p)))
  {
    hide SameElsewhere, Grown, EntriesOf, Held, Consistent, Owned;
    var q := s.requests[r];
    SentHeld(f, r, p, q);
    OwnAppOf(s, r);
    OneRequestChanged(f, AfterSend(f, r, p, q), s, Apply(s, Send(r, p)), r, Sent(q, p));
  }

  /** What HandleSetResponse does when it finds an entry of this application request. */
  ghost predicate SetResponded(f: Maps, f': Maps, r: RequestId, p: Server, app: ApplicationId) {
    && Entered(f'.serverSet, f.serverSet, r, multiset{p}) && (forall e :: e in f'.serverSet ==> e in f.serverSet)
    && f'.serverUpdate == f.serverUpdate && f'.applicationUpdate == f.applicationUpdate
    && if EntriesOf(f'.serverSet, r) == multiset{} && app in f.applicationSet
       then f'.replies == f.replies + [app] && f'.applicationSet == f.applicationSet - {app}
       else f'.replies == f.replies && f'.applicationSet == f.applicationSet
  }

  lemma SetRespondedLocal(f: Maps, f': Maps, r: RequestId, p: Server, q: Request)
    requires q.isSet && SetResponded(f, f', r, p, q.app)
    ensures SameElsewhere(f, f', r, q.app) && Grown(f, f', r, q)
  {
    hide EntriesOf;
  }

  lemma SetRespondedHeld(f: Maps, f': Maps, r: RequestId, p: Server, q: Request)
    requires q.isSet && Held(f, r, q) && SetResponded(f, f', r, p, q.app)
    ensures var q' := Responded(q, p);
            && q'.finishing == (if EntriesOf(f'.serverSet, r) == multiset{} then 1 else 0)
            && q'.isSet && q'.app == q.app && q.app !in f.applicationUpdate
            && forall n :: Held(f', r, q'.(finishing := 0, remaining := n))
  {
    hide EntriesOf;
    SetResponseIsStep(f.serverSet, f'.serverSet, r, p, q);
  }

  ghost function WithRequest(s: ClientState, r: RequestId, q: Request): ClientState {
    s.(requests := s.requests[r := q])
  }

  /** The finishing step answers the application if it has an entry. */
  lemma SetFinished(f: Maps, f': Maps, s: ClientState, r: RequestId, p: Server, q: Request)
    requires q.isSet && q.finishing == 1 && q.app !in f.applicationUpdate
    requires SetResponded(f, f', r, p, q.app) && EntriesOf(f'.serverSet, r) == multiset{}
    requires s.apps == f.applicationSet + f.applicationUpdate.Keys && s.replies == multiset(f.replies)
    ensures var s' := Finished(WithRequest(s, r, q), r);
            && r in s'.requests && s'.requests[r] == q.(finishing := 0, remaining := s'.requests[r].remaining)
            && s'.requests == s.requests[r := s'.requests[r]]
            && s'.apps == f'.applicationSet + f'.applicationUpdate.Keys && s'.replies == multiset(f'.replies)
  {
    hide EntriesOf, Entered;
  }

  lemma RespondEnabled(f: Maps, s: ClientState, r: RequestId, p: Server)
    requires Inv(s) && Represents(f, s) && Enabled(s, Respond(r, p))
    ensures r in s.requests && Held(f, r, s.requests[r]) && OwnApp(s, r, s.requests[r])
    ensures Apply(s, Respond(r, p)) == WithRequest(s, r, Responded(s.requests[r], p))
    ensures s.apps == f.applicationSet + f.applicationUpdate.Keys && s.replies == multiset(f.replies)
  {
    hide Held, Owned, Responded;
    OwnAppOf(s, r);
  }

  lemma AppOf(f: Maps, s: ClientState, e: Entry)
    requires Represents(f, s) && (e in f.serverSet || e in f.serverUpdate)
    ensures e.requestId in s.requests && s.requests[e.requestId].app == e.parent
  {
    hide Held;
  }

  /** What the response and the finishing step of a SET come to. */
  ghost function AfterSetResponse(s: ClientState, r: RequestId, q: Request): ClientState {
    var responded := WithRequest(s, r, q);
    if q.finishing > 0 then Finished(responded, r) else responded
  }

  lemma SetResponseRepresents(f: Maps, f': Maps, s: ClientState, r: RequestId, p: Server)
    requires Represents(f, s) && r in s.requests && s.requests[r].isSet && Held(f, r, s.requests[r])
    requires OwnApp(s, r, s.requests[r]) && SetResponded(f, f', r, p, s.requests[r].app)
    ensures var q' := Responded(s.requests[r], p);
            && (q'.finishing > 0 <==> EntriesOf(f'.serverSet, r) == multiset{})
            && Represents(f', AfterSetResponse(s, r, q'))
  {
    var q := s.requests[r];
    var q' := Responded(q, p);
    assert s.apps == f.applicationSet + f.applicationUpdate.Keys && s.replies == multiset(f.replies);
    SetRespondedLocal(f, f', r, p, q);
    SetRespondedHeld(f, f', r, p, q);
    hide Represents, Responded, SameElsewhere, Grown, EntriesOf, Held, OwnApp, Finished, Entered;
    var s' := AfterSetResponse(s, r, q');
    if q'.finishing > 0 {
      SetFinished(f, f', s, r, p, q');
    } else {
      assert q' == q'.(finishing := 0, remaining := q'.remaining);
    }
    GrownAs(f, f', s, r, q, s'.requests[r]);
    OneRequestChanged(f, f', s, s', r, s'.requests[r]);
  }

  /** The handler of a SET response: the response step, and the finishing step if it took the last entry. */
  lemma SetResponseIsSteps(f: Maps, s: ClientState, r: RequestId, p: Server, parent: ApplicationId, f': Maps)
    requires Inv(s) && Represents(f, s) && Enabled(s, Respond(r, p)) && s.requests[r].isSet
    requires Entry(r, p, parent) in f.serverSet && SetResponded(f, f', r, p, parent)
    ensures var responded := Apply(s, Respond(r, p));
            if EntriesOf(f'.serverSet, r) == multiset{}
            then Enabled(responded, Finish(r)) && Represents(f', Apply(responded, Finish(r)))
            else Represents(f', responded)
  {
    hide Inv, Responded, EntriesOf, Held, OwnApp, Finished, SetResponded, Owned;
    RespondEnabled(f, s, r, p);
    AppOf(f, s, Entry(r, p, parent));
    SetResponseRepresents(f, f', s, r, p);
  }

  lemma GrownAs(f: Maps, f': Maps, s: ClientState, r: RequestId, q: Request, q': Request)
    requires Grown(f, f', r, q) && OwnApp(s, r, q) && q.isSet == q'.isSet && q.app == q'.app
    ensures Grown(f, f', r, q') && OwnApp(s, r, q')
  {
  }

  /** What HandleUpdateResponse does when it finds an entry of this application request. */
  ghost predicate UpdateResponded(f: Maps, f': Maps, r: RequestId, p: Server, app: ApplicationId) {
    && Entered(f'.serverUpdate, f.serverUpdate, r, multiset{p})
    && (forall e :: e in f'.serverUpdate ==> e in f.serverUpdate)
    && f'.serverSet == f.serverSet && f'.applicationSet == f.applicationSet
    && if app !in f.applicationUpdate
       then f'.replies == f.replies && f'.applicationUpdate == f.applicationUpdate
       else if f.applicationUpdate[app] == 1
       then f'.replies == f.replies + [app] && f'.applicationUpdate == f.applicationUpdate - {app}
       else f'.replies == f.replies && f'.applicationUpdate == f.applicationUpdate[app := f.applicationUpdate[app] - 1]
  }

  lemma UpdateRespondedLocal(f: Maps, f': Maps, r: RequestId, p: Server, q: Request)
    requires !q.isSet && UpdateResponded(f, f', r, p, q.app)
    ensures SameElsewhere(f, f', r, q.app) && Grown(f, f', r, q)
  {
    hide EntriesOf;
  }

  /** The request after both steps; its application's entry is counted down if there is one. */
  lemma UpdateRespondedHeld(f: Maps, f': Maps, r: RequestId, p: Server, q: Request, n: int)
    requires !q.isSet && Held(f, r, q) && UpdateResponded(f, f', r, p, q.app)
    requires q.app in f.applicationUpdate ==> n == q.remaining - 1
    ensures var q' := Responded(q, p);
            && q'.finishing == 1 && q'.remaining == q.remaining && !q'.isSet && q'.app == q.app
            && q.app !in f.applicationSet
            && (q.app in f.applicationUpdate ==> f.applicationUpdate[q.app] == q.remaining)
            && Held(f', r, q'.(finishing := 0, remaining := n))
  {
    hide EntriesOf;
    assert p in EntriesOf(f.serverUpdate, r);
    assert EntriesOf(f.serverUpdate, r) - multiset{p} == EntriesOf(f'.serverUpdate, r);
  }

  lemma UpdateFinished(f: Maps, f': Maps, s: ClientState, r: RequestId, p: Server, q: Request, n: int)
    requires !q.isSet && q.finishing == 1 && q.app !in f.applicationSet && UpdateResponded(f, f', r, p, q.app)
    requires q.app in f.applicationUpdate ==> f.applicationUpdate[q.app] == q.remaining
    requires n == if q.app in f.applicationUpdate then q.remaining - 1 else q.remaining
    requires s.apps == f.applicationSet + f.applicationUpdate.Keys && s.replies == multiset(f.replies)
    ensures var s' := Finished(WithRequest(s, r, q), r);
            && s'.requests == s.requests[r := q.(finishing := 0, remaining := n)]
            && s'.apps == f'.applicationSet + f'.applicationUpdate.Keys && s'.replies == multiset(f'.replies)
  {
    hide EntriesOf, Entered;
    var s' := Finished(WithRequest(s, r, q), r);
    assert s'.requests[r] == q.(finishing := 0, remaining := n);
  }

  lemma UpdateResponseRepresents(f: Maps, f': Maps, s: ClientState, r: RequestId, p: Server)
    requires Represents(f, s) && r in s.requests && !s.requests[r].isSet && Held(f, r, s.requests[r])
    requires OwnApp(s, r, s.requests[r]) && UpdateResponded(f, f', r, p, s.requests[r].app)
    ensures var q' := Responded(s.requests[r], p);
            q'.finishing > 0 && Represents(f', Finished(WithRequest(s, r, q'), r))
  {
    var q := s.requests[r];
    var n := if q.app in f.applicationUpdate then q.remaining - 1 else q.remaining;
    assert s.apps == f.applicationSet + f.applicationUpdate.Keys && s.replies == multiset(f.replies);
    UpdateRespondedLocal(f, f', r, p, q);
    UpdateRespondedHeld(f, f', r, p, q, n);
    hide Represents, Responded, SameElsewhere, Grown, EntriesOf, Held, OwnApp, Finished, UpdateResponded;
    UpdateFinished(f, f', s, r, p, Responded(q, p), n);
    var q' := Responded(q, p).(finishing := 0, remaining := n);
    GrownAs(f, f', s, r, q, q');
    OneRequestChanged(f, f', s, Finished(WithRequest(s, r, Responded(q, p)), r), r, q');
  }

  /** The handler of an UPDATE response: the response step and the finishing step. */
  lemma UpdateResponseIsSteps(f: Maps, s: ClientState, r: RequestId, p: Server, parent: ApplicationId, f': Maps)
    requires Inv(s) && Represents(f, s) && Enabled(s, Respond(r, p)) && !s.requests[r].isSet
    requires Entry(r, p, parent) in f.serverUpdate && UpdateResponded(f, f', r, p, parent)
    ensures var responded := Apply(s, Respond(r, p));
            Enabled(responded, Finish(r)) && Represents(f', Apply(responded, Finish(r)))
  {
    hide Inv, Responded, EntriesOf, Held, OwnApp, Finished, UpdateResponded, Owned;
    RespondEnabled(f, s, r, p);
    AppOf(f, s, Entry(r, p, parent));
    UpdateResponseRepresents(f, f', s, r, p);
  }
}
