/** The handlers of RevertHandling are steps of the interleavings of RevertCounters. */
module RevertSteps {
  import opened ServerStates
  import opened RevertCounters
  import opened RevertHandling

  /** The fields of a RevertClient. */
  datatype Fields = Fields(
    states: map<Server, RemapState>,
    completed: set<Server>,
    counters: map<Server, int>,
    queue: seq<RevertEvent>,
    acks: seq<AckEntry>)

  /** The servers that queued events will ask for the sake of t. */
  ghost function ServersOf(queue: seq<RevertEvent>, t: Server): multiset<Server> {
    if queue == [] then multiset{}
    else
      var last := |queue| - 1;
      ServersOf(queue[..last], t) + if queue[last].target == t then multiset{queue[last].server} else multiset{}
  }

  function AckOf(k: AckEntry): Ack {
    Ack(k.server, k.requestId)
  }

  ghost function AcksAt(acks: seq<AckEntry>, t: Server): set<Ack> {
    set k | k in acks && k.target == t :: AckOf(k)
  }

  /** No two pending acks wait for the same answer. */
  ghost predicate Distinct(acks: seq<AckEntry>) {
    forall i, j :: 0 <= i < j < |acks| ==> AckOf(acks[i]) != AckOf(acks[j])
  }

  ghost predicate Carries(f: Fields, t: Server, a: Account)
    requires t in f.counters
  {
    && a.counter == f.counters[t] && a.staged == multiset{} && a.erased == 0
    && a.queued == ServersOf(f.queue, t) && a.acks == AcksAt(f.acks, t)
  }

  /** The fields between two handlers: no event is staged and no erased ack awaits its decrement. */
  ghost predicate Represents(f: Fields, s: ClientState) {
    && s.states == f.states && s.completed == f.completed && s.accounts.Keys == f.counters.Keys
    && Distinct(f.acks)
    && (forall e :: e in f.queue ==> e.target in f.counters)
    && (forall k :: k in f.acks ==> k.target in f.counters)
    && (forall t :: t in f.counters ==> Carries(f, t, s.accounts[t]))
  }

  lemma InitiallyRepresented(f: Fields, s: ClientState)
    requires Init(s) && s.states == f.states && s.completed == f.completed && f.queue == [] && f.acks == []
    requires f.counters == map t | t in f.states :: 0
    ensures Represents(f, s)
  {
  }

  /** The steps, each enabled where it is taken, lead from s to s'. */
  ghost predicate Leads(s: ClientState, steps: seq<Step>, s': ClientState)
    decreases |steps|
  {
    if steps == [] then s' == s
    else Enabled(s, steps[0]) && Leads(Apply(s, steps[0]), steps[1..], s')
  }

  lemma {:induction false} LeadsOn(s: ClientState, a: seq<Step>, mid: ClientState, b: seq<Step>, s': ClientState)
    requires Leads(s, a, mid) && Leads(mid, b, s')
    ensures Leads(s, a + b, s')
    decreases |a|
  {
    hide Enabled, Apply;
    if a == [] {
      assert a + b == b;
    } else {
      assert (a + b)[1..] == a[1..] + b;
      LeadsOn(Apply(s, a[0]), a[1..], mid, b, s');
    }
  }

  lemma LeadsByOne(s: ClientState, a: seq<Step>, mid: ClientState, step: Step)
    requires Leads(s, a, mid) && Enabled(mid, step)
    ensures Leads(s, a + [step], Apply(mid, step))
  {
    hide Enabled, Apply;
    assert Leads(Apply(mid, step), [step][1..], Apply(mid, step));
    LeadsOn(s, a, mid, [step], Apply(mid, step));
  }

  lemma {:induction false} ServersOfAppend(a: seq<RevertEvent>, b: seq<RevertEvent>, t: Server)
    ensures ServersOf(a + b, t) == ServersOf(a, t) + ServersOf(b, t)
  {
    if b == [] {
      assert a + b == a;
    } else {
      assert (a + b)[..|a + b| - 1] == a + b[..|b| - 1];
      ServersOfAppend(a, b[..|b| - 1], t);
    }
  }

  lemma ServersOfTail(queue: seq<RevertEvent>, t: Server)
    requires queue != []
    ensures ServersOf(queue, t) == ServersOf(queue[1..], t)
                                   + if queue[0].target == t then multiset{queue[0].server} else multiset{}
  {
    assert queue == [queue[0]] + queue[1..];
    ServersOfAppend([queue[0]], queue[1..], t);
    assert [queue[0]][..0] == [];
  }

  lemma {:induction false} ServersOfOthers(queue: seq<RevertEvent>, t: Server)
    requires forall e :: e in queue ==> e.target != t
    ensures ServersOf(queue, t) == multiset{}
  {
    if queue != [] {
      ServersOfOthers(queue[..|queue| - 1], t);
    }
  }

  // ----- Dispatch -----

  ghost function WithAccount(s: ClientState, t: Server, a: Account): ClientState {
    s.(accounts := s.accounts[t := a])
  }

  ghost function AfterDispatch(f: Fields, r: RequestId): Fields
    requires f.queue != []
  {
    f.(queue := f.queue[1..], acks := f.acks + [AckEntry(f.queue[0].server, r, f.queue[0].target)])
  }

  lemma DispatchedCarries(f: Fields, r: RequestId, t: Server, a: Account)
    requires f.queue != [] && t in f.counters && Carries(f, t, a)
    ensures var e := f.queue[0];
            if t == e.target
            then e.server in a.queued && Carries(AfterDispatch(f, r), t, Dispatched(a, e.server, r))
            else Carries(AfterDispatch(f, r), t, a)
  {
    hide ServersOf, AcksAt;
    ServersOfTail(f.queue, t);
    AcksAtAdded(f.acks, AckEntry(f.queue[0].server, r, f.queue[0].target), t);
  }

  lemma DistinctAdded(acks: seq<AckEntry>, entry: AckEntry)
    requires Distinct(acks) && forall k :: k in acks ==> AckOf(k) != AckOf(entry)
    ensures Distinct(acks + [entry])
  {
  }

  lemma DispatchEnabled(f: Fields, s: ClientState, r: RequestId)
    requires Represents(f, s) && f.queue != []
    requires forall k :: k in f.acks ==> AckOf(k) != Ack(f.queue[0].server, r)
    ensures f.queue[0].target in f.counters && f.queue[0].target in s.accounts
    ensures Enabled(s, Dispatch(f.queue[0].target, f.queue[0].server, r))
  {
    hide ServersOf;
    assert f.queue[0] in f.queue;
    DispatchedCarries(f, r, f.queue[0].target, s.accounts[f.queue[0].target]);
    forall t | t in f.counters
      ensures Ack(f.queue[0].server, r) !in s.accounts[t].acks
    {
      assert Carries(f, t, s.accounts[t]);
    }
  }

  /** Taking an event off the queue is one step, given a request id that no pending ack of the server has. */
  lemma DispatchIsStep(f: Fields, s: ClientState, r: RequestId)
    requires Represents(f, s) && f.queue != []
    requires forall k :: k in f.acks ==> AckOf(k) != Ack(f.queue[0].server, r)
    ensures var step := Dispatch(f.queue[0].target, f.queue[0].server, r);
            Enabled(s, step) && Represents(AfterDispatch(f, r), Apply(s, step))
  {
    hide Enabled, Carries, Dispatched, Distinct;
    DispatchEnabled(f, s, r);
    var e := f.queue[0];
    DistinctAdded(f.acks, AckEntry(e.server, r, e.target));
    var s' := WithAccount(s, e.target, Dispatched(s.accounts[e.target], e.server, r));
    forall t | t in f.counters
      ensures Carries(AfterDispatch(f, r), t, s'.accounts[t])
    {
      DispatchedCarries(f, r, t, s.accounts[t]);
    }
    assert s' == Apply(s, Dispatch(e.target, e.server, r));
  }

  lemma AcksAtAdded(acks: seq<AckEntry>, entry: AckEntry, t: Server)
    ensures AcksAt(acks + [entry], t) == AcksAt(acks, t) + if entry.target == t then {AckOf(entry)} else {}
  {
    assert forall k :: k in acks + [entry] <==> k in acks || k == entry;
  }

  // ----- an answer -----

  lemma AcksAtRemoved(acks: seq<AckEntry>, i: nat, t: Server)
    requires i < |acks| && Distinct(acks)
    ensures var rest := acks[..i] + acks[i + 1..];
            && Distinct(rest) && (forall k :: k in rest ==> k in acks)
            && AcksAt(rest, t) == AcksAt(acks, t) - {AckOf(acks[i])}
  {
    var rest := acks[..i] + acks[i + 1..];
    forall x | x in AcksAt(acks, t) && x != AckOf(acks[i])
      ensures x in AcksAt(rest, t)
    {
      var k :| k in acks && k.target == t && AckOf(k) == x;
      var j :| 0 <= j < |acks| && acks[j] == k;
      assert rest[if j < i then j else j - 1] == k;
    }
    forall k | k in rest
      ensures k in acks && AckOf(k) != AckOf(acks[i])
    {
      var j :| 0 <= j < |rest| && rest[j] == k;
      assert k == acks[if j < i then j else j + 1];
    }
  }

  /** An answer to a pending ack is two steps: the ack is erased, then its counter is decremented. */
  lemma AcknowledgementIsSteps(f: Fields, s: ClientState, i: nat)
    requires Represents(f, s) && i < |f.acks|
    ensures var t := f.acks[i].target;
            var f' := f.(acks := f.acks[..i] + f.acks[i + 1..], counters := f.counters[t := f.counters[t] - 1]);
            && Enabled(s, EraseAck(t, AckOf(f.acks[i])))
            && Enabled(Apply(s, EraseAck(t, AckOf(f.acks[i]))), Decrement(t))
            && Represents(f', Apply(Apply(s, EraseAck(t, AckOf(f.acks[i]))), Decrement(t)))
  {
    hide Distinct;
    var k := f.acks[i];
    var f' := f.(acks := f.acks[..i] + f.acks[i + 1..], counters := f.counters[k.target := f.counters[k.target] - 1]);
    assert k in f.acks && Carries(f, k.target, s.accounts[k.target]);
    var s' := Apply(Apply(s, EraseAck(k.target, AckOf(k))), Decrement(k.target));
    AcksAtRemoved(f.acks, i, k.target);
    forall t | t in f.counters
      ensures Carries(f', t, s'.accounts[t])
    {
      assert Carries(f, t, s.accounts[t]);
      AcksAtRemoved(f.acks, i, t);
      if t != k.target {
        NotElsewhere(f.acks, i, t);
      }
    }
  }

  lemma NotElsewhere(acks: seq<AckEntry>, i: nat, t: Server)
    requires i < |acks| && Distinct(acks) && acks[i].target != t
    ensures AckOf(acks[i]) !in AcksAt(acks, t)
  {
    forall k | k in acks && AckOf(k) == AckOf(acks[i])
      ensures k.target != t
    {
      var j :| 0 <= j < |acks| && acks[j] == k;
      assert j == i;
    }
  }

  // ----- RemovePending -----

  ghost function Decrements(own: seq<AckEntry>): seq<Step> {
    if own == [] then [] else Decrements(own[..|own| - 1]) + [Decrement(own[|own| - 1].target)]
  }

  /** The account after n decrements. */
  function Paid(a: Account, n: nat): Account {
    a.(counter := a.counter - n, erased := if a.erased < n then 0 else a.erased - n, settled := a.settled + n)
  }

  lemma PaidOneMore(a: Account, n: nat)
    requires n < a.erased
    ensures Paid(a, n).erased > 0 && Decremented(Paid(a, n)) == Paid(a, n + 1)
  {
  }

  ghost function CountedDown(s: ClientState, own: seq<AckEntry>): ClientState {
    s.(accounts := map t | t in s.accounts :: Paid(s.accounts[t], AcksFor(own, t)))
  }

  lemma AcksForLast(own: seq<AckEntry>, t: Server)
    requires own != []
    ensures AcksFor(own, t) == AcksFor(own[..|own| - 1], t) + if own[|own| - 1].target == t then 1 else 0
  {
  }

  lemma CountedOneMore(s: ClientState, own: seq<AckEntry>)
    requires own != [] && own[|own| - 1].target in s.accounts
    requires AcksFor(own, own[|own| - 1].target) <= s.accounts[own[|own| - 1].target].erased
    ensures var before, step := CountedDown(s, own[..|own| - 1]), Decrement(own[|own| - 1].target);
            Enabled(before, step) && Apply(before, step) == CountedDown(s, own)
  {
    hide Paid, Decremented, AcksFor;
    forall u
      ensures AcksFor(own, u) == AcksFor(own[..|own| - 1], u) + if own[|own| - 1].target == u then 1 else 0
    {
      AcksForLast(own, u);
    }
    var t := own[|own| - 1].target;
    var before := CountedDown(s, own[..|own| - 1]);
    PaidOneMore(s.accounts[t], AcksFor(own[..|own| - 1], t));
    assert before.accounts[t := Decremented(before.accounts[t])] == CountedDown(s, own).accounts;
  }

  /** Counting down for each ack of a list is that many decrements. */
  lemma {:induction false} CountDownIsSteps(s: ClientState, own: seq<AckEntry>)
    requires forall k :: k in own ==> k.target in s.accounts
    requires forall t :: t in s.accounts ==> AcksFor(own, t) <= s.accounts[t].erased
    ensures Leads(s, Decrements(own), CountedDown(s, own))
  {
    if own == [] {
      assert CountedDown(s, own).accounts == s.accounts;
    } else {
      hide Leads, Paid, Decremented, Enabled, Apply;
      var last := |own| - 1;
      assert own[last] in own;
      forall u
        ensures AcksFor(own, u) == AcksFor(own[..last], u) + if u == own[last].target then 1 else 0
      {
      }
      CountDownIsSteps(s, own[..last]);
      CountedOneMore(s, own);
      LeadsByOne(s, Decrements(own[..last]), CountedDown(s, own[..last]), Decrement(own[last].target));
    }
  }

  /** In a list without duplicates there are as many acks for t as entries. */
  lemma {:induction false} AcksForIsSize(acks: seq<AckEntry>, t: Server)
    requires Distinct(acks)
    ensures |AcksAt(acks, t)| == AcksFor(acks, t)
  {
    if acks != [] {
      var last := |acks| - 1;
      var before := acks[..last];
      assert acks == before + [acks[last]];
      AcksForIsSize(before, t);
      AcksAtAdded(before, acks[last], t);
      forall k | k in before
        ensures AckOf(k) != AckOf(acks[last])
      {
        var j :| 0 <= j < last && before[j] == k;
        assert acks[j] == k;
      }
      assert AckOf(acks[last]) !in AcksAt(before, t);
    }
  }

  lemma {:induction false} AcksOfIn(acks: seq<AckEntry>, p: Server, own: bool, k: AckEntry)
    ensures k in AcksOf(acks, p, own) <==> k in acks && (k.server == p) == own
  {
    if acks != [] {
      assert acks == acks[..|acks| - 1] + [acks[|acks| - 1]];
      AcksOfIn(acks[..|acks| - 1], p, own, k);
    }
  }

  lemma {:induction false} DistinctParts(acks: seq<AckEntry>, p: Server, own: bool)
    requires Distinct(acks)
    ensures Distinct(AcksOf(acks, p, own))
  {
    if acks != [] {
      var last := |acks| - 1;
      var before := acks[..last];
      DistinctParts(before, p, own);
      forall k | k in AcksOf(before, p, own)
        ensures AckOf(k) != AckOf(acks[last])
      {
        var j :| 0 <= j < last && before[j] == k;
        assert acks[j] == k;
      }
      DistinctAdded(AcksOf(before, p, own), acks[last]);
    }
  }

  /** Both parts of the pending acks are free of duplicates, and divide the acks for t. */
  lemma AcksOfParts(acks: seq<AckEntry>, p: Server, own: bool, t: Server)
    requires Distinct(acks)
    ensures Distinct(AcksOf(acks, p, own))
    ensures AcksAt(AcksOf(acks, p, own), t) == set k | k in AcksAt(acks, t) && (k.server == p) == own
  {
    DistinctParts(acks, p, own);
    forall k
      ensures k in AcksOf(acks, p, own) <==> k in acks && (k.server == p) == own
    {
      AcksOfIn(acks, p, own, k);
    }
    hide AcksOf;
    forall x | x in AcksAt(acks, t) && (x.server == p) == own
      ensures x in AcksAt(AcksOf(acks, p, own), t)
    {
      var k :| k in acks && k.target == t && AckOf(k) == x;
      assert k in AcksOf(acks, p, own);
    }
  }

  ghost function AfterRemoval(f: Fields, p: Server, counters: map<Server, int>): Fields {
    f.(acks := AcksOf(f.acks, p, false), counters := counters)
  }

  lemma RemovedCarries(f: Fields, p: Server, counters: map<Server, int>, t: Server, a: Account)
    requires t in f.counters && Carries(f, t, a) && Distinct(f.acks)
    requires t in counters && counters[t] == f.counters[t] - AcksFor(AcksOf(f.acks, p, true), t)
    ensures var n, a' := AcksFor(AcksOf(f.acks, p, true), t), WithoutAcksOf(a, p);
            a'.erased == n && Carries(AfterRemoval(f, p, counters), t, Paid(a', n))
  {
    hide Distinct, AcksFor, AcksOf, AcksAt, ServersOf;
    AcksOfParts(f.acks, p, true, t);
    AcksOfParts(f.acks, p, false, t);
    AcksForIsSize(AcksOf(f.acks, p, true), t);
    assert AcksAt(AcksOf(f.acks, p, true), t) == set k | k in a.acks && k.server == p;
    assert AcksAt(AcksOf(f.acks, p, false), t) == a.acks - set k | k in a.acks && k.server == p;
  }

  /** Giving up a server is the step that erases its acks, followed by a decrement for each of them. */
  lemma RemovePendingIsSteps(f: Fields, s: ClientState, p: Server, counters: map<Server, int>)
    requires Represents(f, s) && counters.Keys == f.counters.Keys
    requires forall t :: t in counters ==> counters[t] == f.counters[t] - AcksFor(AcksOf(f.acks, p, true), t)
    ensures exists s' :: Leads(s, [EraseAcksOf(p)] + Decrements(AcksOf(f.acks, p, true)), s')
                         && Represents(AfterRemoval(f, p, counters), s')
  {
    hide Leads, Distinct, AcksFor, AcksOf, Carries, WithoutAcksOf, Paid;
    var own := AcksOf(f.acks, p, true);
    var mid := Apply(s, EraseAcksOf(p));
    var s' := CountedDown(mid, own);
    AcksOfParts(f.acks, p, false, p);
    forall t | t in f.counters
      ensures mid.accounts[t].erased == AcksFor(own, t) && Carries(AfterRemoval(f, p, counters), t, s'.accounts[t])
    {
      RemovedCarries(f, p, counters, t, s.accounts[t]);
    }
    CountDownIsSteps(mid, own);
    LeadsInOne(s, EraseAcksOf(p));
    LeadsOn(s, [EraseAcksOf(p)], mid, Decrements(own), s');
    assert Represents(AfterRemoval(f, p, counters), s');
  }

  lemma LeadsInOne(s: ClientState, step: Step)
    requires Enabled(s, step)
    ensures Leads(s, [step], Apply(s, step))
  {
    hide Enabled, Apply;
    assert Leads(s, [], s);
    LeadsByOne(s, [], s, step);
    assert [] + [step] == [step];
  }

  // ----- RevertDelta -----

  ghost function Stages(events: seq<RevertEvent>): seq<Step> {
    if events == [] then []
    else Stages(events[..|events| - 1]) + [Stage(events[|events| - 1].target, events[|events| - 1].server)]
  }

  ghost function Enqueues(events: seq<RevertEvent>): seq<Step> {
    if events == [] then []
    else Enqueues(events[..|events| - 1]) + [Enqueue(events[|events| - 1].target, events[|events| - 1].server)]
  }

  ghost function StagesAndEnqueues(events: seq<RevertEvent>): seq<Step> {
    Stages(events) + Enqueues(events)
  }

  ghost function AllStaged(a: Account, events: seq<RevertEvent>, t: Server): Account {
    a.(counter := a.counter + |events|, staged := a.staged + ServersOf(events, t), asked := a.asked + |events|)
  }

  ghost function AllEnqueued(a: Account, events: seq<RevertEvent>, t: Server): Account {
    a.(staged := a.staged - ServersOf(events, t), queued := a.queued + ServersOf(events, t))
  }

  lemma StageStep(s: ClientState, t: Server, a: Account, p: Server)
    requires t in s.accounts && p != t && !UseCoordinatedFlow(s.states, p)
    ensures Enabled(WithAccount(s, t, a), Stage(t, p))
    ensures Apply(WithAccount(s, t, a), Stage(t, p)) == WithAccount(s, t, Staged(a, p))
  {
  }

  lemma EnqueueStep(s: ClientState, t: Server, a: Account, p: Server)
    requires t in s.accounts && p in a.staged
    ensures Enabled(WithAccount(s, t, a), Enqueue(t, p))
    ensures Apply(WithAccount(s, t, a), Enqueue(t, p)) == WithAccount(s, t, Enqueued(a, p))
  {
  }

  lemma StagedOneMore(a: Account, events: seq<RevertEvent>, t: Server)
    requires events != [] && events[|events| - 1].target == t
    ensures Staged(AllStaged(a, events[..|events| - 1], t), events[|events| - 1].server) == AllStaged(a, events, t)
  {
  }

  lemma {:induction false} StageAll(s: ClientState, t: Server, events: seq<RevertEvent>)
    requires t in s.accounts
    requires forall e :: e in events ==> e.target == t && e.server != t && !UseCoordinatedFlow(s.states, e.server)
    ensures Leads(s, Stages(events), WithAccount(s, t, AllStaged(s.accounts[t], events, t)))
  {
    if events == [] {
      assert AllStaged(s.accounts[t], events, t) == s.accounts[t];
      assert WithAccount(s, t, s.accounts[t]).accounts == s.accounts;
    } else {
      hide Leads, AllStaged, Staged, Enabled, Apply, WithAccount;
      var last := |events| - 1;
      assert events[last] in events;
      StageAll(s, t, events[..last]);
      StagedOneMore(s.accounts[t], events, t);
      var before := AllStaged(s.accounts[t], events[..last], t);
      StageStep(s, t, before, events[last].server);
      LeadsByOne(s, Stages(events[..last]), WithAccount(s, t, before), Stage(t, events[last].server));
    }
  }

  lemma EnqueuedOneMore(a: Account, events: seq<RevertEvent>, t: Server)
    requires events != [] && events[|events| - 1].target == t && ServersOf(events, t) <= a.staged
    ensures var before, p := events[..|events| - 1], events[|events| - 1].server;
            && ServersOf(before, t) <= a.staged && p in AllEnqueued(a, before, t).staged
            && Enqueued(AllEnqueued(a, before, t), p) == AllEnqueued(a, events, t)
  {
    var before, p := events[..|events| - 1], events[|events| - 1].server;
    assert ServersOf(events, t) == ServersOf(before, t) + multiset{p};
    hide ServersOf;
    assert a.staged - ServersOf(events, t) == (a.staged - ServersOf(before, t)) - multiset{p};
  }

  lemma {:induction false} EnqueueAll(s: ClientState, t: Server, events: seq<RevertEvent>)
    requires t in s.accounts && ServersOf(events, t) <= s.accounts[t].staged
    requires forall e :: e in events ==> e.target == t
    ensures Leads(s, Enqueues(events), WithAccount(s, t, AllEnqueued(s.accounts[t], events, t)))
  {
    if events == [] {
      assert AllEnqueued(s.accounts[t], events, t) == s.accounts[t];
      assert WithAccount(s, t, s.accounts[t]).accounts == s.accounts;
    } else {
      hide Leads, AllEnqueued, Enqueued, ServersOf, Enabled, Apply, WithAccount;
      var last := |events| - 1;
      assert events[last] in events;
      EnqueuedOneMore(s.accounts[t], events, t);
      EnqueueAll(s, t, events[..last]);
      var before := AllEnqueued(s.accounts[t], events[..last], t);
      EnqueueStep(s, t, before, events[last].server);
      LeadsByOne(s, Enqueues(events[..last]), WithAccount(s, t, before), Enqueue(t, events[last].server));
    }
  }

  ghost function AfterDelta(f: Fields, t: Server, events: seq<RevertEvent>): Fields
    requires t in f.counters
  {
    f.(queue := f.queue + events, counters := f.counters[t := f.counters[t] + |events|])
  }

  lemma DeltaCarries(f: Fields, t: Server, events: seq<RevertEvent>, u: Server, a: Account)
    requires t in f.counters && u in f.counters && Carries(f, u, a) && forall e :: e in events ==> e.target == t
    ensures Carries(AfterDelta(f, t, events), u,
                    if u == t then AllEnqueued(AllStaged(a, events, t), events, t) else a)
    ensures ServersOf(events, t) <= AllStaged(a, events, t).staged
  {
    hide ServersOf, AcksAt;
    ServersOfAppend(f.queue, events, u);
    if u != t {
      ServersOfOthers(events, u);
    }
  }

  /** Asking the servers is one staging step for each of them, followed by the steps that queue the events. */
  lemma RevertDeltaIsSteps(f: Fields, s: ClientState, t: Server, servers: seq<Server>)
    requires Represents(f, s) && t in f.counters
    ensures exists s' :: Leads(s, StagesAndEnqueues(RevertEvents(servers, f.states, t)), s')
                         && Represents(AfterDelta(f, t, RevertEvents(servers, f.states, t)), s')
  {
    hide Leads, Distinct, RevertEvents, Carries, AllStaged, AllEnqueued, ServersOf;
    var events := RevertEvents(servers, f.states, t);
    forall e | e in events
      ensures e.target == t && e.server != t && !UseCoordinatedFlow(f.states, e.server)
    {
      RevertEventsAre(servers, f.states, t, e.server);
      assert e == RevertEvent(e.server, t);
    }
    DeltaCarries(f, t, events, t, s.accounts[t]);
    StageAll(s, t, events);
    var mid := WithAccount(s, t, AllStaged(s.accounts[t], events, t));
    EnqueueAll(mid, t, events);
    var s' := WithAccount(mid, t, AllEnqueued(mid.accounts[t], events, t));
    LeadsOn(s, Stages(events), mid, Enqueues(events), s');
    forall u | u in f.counters
      ensures Carries(AfterDelta(f, t, events), u, s'.accounts[u])
    {
      DeltaCarries(f, t, events, u, s.accounts[u]);
    }
    assert Represents(AfterDelta(f, t, events), s');
  }

  // ----- SetState -----

  ghost predicate IsStart(f: Fields, t: Server, signal: RemapState) {
    t in f.states && signal == Intermediate && f.states[t] != WaitDegraded
  }

  ghost function AfterSetState(f: Fields, t: Server, signal: RemapState, nothingPending: bool): Fields
    requires t in f.states
  {
    var next := if (signal == Intermediate && f.states[t] == WaitDegraded)
                   || (signal == Coordinated && f.states[t] == WaitNormal) then f.states[t] else signal;
    f.(states := f.states[t := next],
       completed := if !IsStart(f, t, signal) then f.completed
                    else f.completed - {t} + if nothingPending then {t} else {})
  }

  /** The signal itself is one step; a second one notes that no normal request is pending. */
  lemma SignalIsSteps(f: Fields, s: ClientState, t: Server, signal: RemapState, nothingPending: bool)
    requires Represents(f, s) && t in f.states
    ensures var note := IsStart(f, t, signal) && nothingPending;
            var steps := [Signal(t, signal)] + if note then [SetCompleted(t, true)] else [];
            exists s' :: Leads(s, steps, s') && Represents(AfterSetState(f, t, signal, nothingPending), s')
  {
    hide Leads, Carries, Distinct;
    var note := IsStart(f, t, signal) && nothingPending;
    var mid := Apply(s, Signal(t, signal));
    LeadsInOne(s, Signal(t, signal));
    var f' := AfterSetState(f, t, signal, nothingPending);
    forall u | u in f.counters
      ensures Carries(f', u, s.accounts[u])
    {
      SameCarries(f, f', u, s.accounts[u]);
    }
    if note {
      LeadsByOne(s, [Signal(t, signal)], mid, SetCompleted(t, true));
      assert Represents(f', Apply(mid, SetCompleted(t, true)));
    } else {
      assert [Signal(t, signal)] + [] == [Signal(t, signal)];
      assert Represents(f', mid);
    }
  }

  lemma SameCarries(f: Fields, f': Fields, t: Server, a: Account)
    requires t in f.counters && Carries(f, t, a)
    requires f'.counters == f.counters && f'.queue == f.queue && f'.acks == f.acks
    ensures Carries(f', t, a)
  {
  }

  ghost function StartSteps(f: Fields, t: Server, servers: seq<Server>): seq<Step> {
    StagesAndEnqueues(RevertEvents(servers, f.states, t)) + ([EraseAcksOf(t)] + Decrements(AcksOf(f.acks, t, true)))
  }

  ghost function AfterStart(f: Fields, t: Server, servers: seq<Server>, counters: map<Server, int>): Fields
    requires t in f.counters
  {
    AfterRemoval(AfterDelta(f, t, RevertEvents(servers, f.states, t)), t, counters)
  }

  /** What follows when a transition starts: the steps of RevertDelta, then those of RemovePending. */
  lemma StartIsSteps(f: Fields, s: ClientState, t: Server, servers: seq<Server>, counters: map<Server, int>)
    requires Represents(f, s) && t in f.counters && counters.Keys == f.counters.Keys
    requires forall u :: u in counters ==>
               counters[u] == f.counters[u] + (if u == t then |RevertEvents(servers, f.states, t)| else 0)
                              - AcksFor(AcksOf(f.acks, t, true), u)
    ensures exists s' :: Leads(s, StartSteps(f, t, servers), s')
                         && Represents(AfterStart(f, t, servers, counters), s')
  {
    hide Represents, Leads, RevertEvents, AcksFor, AcksOf, StagesAndEnqueues, Decrements;
    var events := RevertEvents(servers, f.states, t);
    var mid: ClientState;
    RevertDeltaIsSteps(f, s, t, servers);
    mid :| Leads(s, StagesAndEnqueues(events), mid) && Represents(AfterDelta(f, t, events), mid);
    var f' := AfterDelta(f, t, events);
    RemovePendingIsSteps(f', mid, t, counters);
    var s' :| Leads(mid, [EraseAcksOf(t)] + Decrements(AcksOf(f.acks, t, true)), s')
              && Represents(AfterRemoval(f', t, counters), s');
    LeadsOn(s, StagesAndEnqueues(events), mid, [EraseAcksOf(t)] + Decrements(AcksOf(f.acks, t, true)), s');
    assert Represents(AfterStart(f, t, servers, counters), s');
  }

  // ----- CheckAckForServer -----

  /** The check is one step. */
  lemma CheckIsStep(f: Fields, s: ClientState, t: Server, ack: bool)
    requires Represents(f, s) && t in f.states && t in f.counters
    requires f.counters[t] == QueuedFor(f.queue, t) + AcksFor(f.acks, t)
    requires ack <==> f.states[t] == Coordinated
                      || (f.states[t] == Intermediate && t in f.completed
                          && QueuedFor(f.queue, t) == 0 && AcksFor(f.acks, t) == 0)
    ensures var states := if !ack then f.states
                          else f.states[t := if f.states[t] == Coordinated then WaitNormal else WaitDegraded];
            && Enabled(s, CheckAck(t))
            && Represents(f.(states := states), Apply(s, CheckAck(t)))
  {
    hide ServersOf, AcksAt, Distinct;
    var states := if !ack then f.states
                  else f.states[t := if f.states[t] == Coordinated then WaitNormal else WaitDegraded];
    assert Carries(f, t, s.accounts[t]);
    assert Apply(s, CheckAck(t)).states == states;
    forall u | u in f.counters
      ensures Carries(f.(states := states), u, s.accounts[u])
    {
      assert Carries(f, u, s.accounts[u]);
    }
  }
}
