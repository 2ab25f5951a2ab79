/**
 * When a client answers an application. A SET or an UPDATE is spread over several servers; worker threads handle the
 * responses in any order, and each step below is one lock-protected action on the pending maps.
 */
module Replies {
  import opened ServerStates
  import opened ModPrime

  type RequestId = nat
  type ApplicationId = nat

  /**
   * One request: its application entry, the messages still to be sent, the entries in the server pending map, the
   * messages whose responses are due, and the responses that have left the server map but not yet reached the
   * application's entry. An UPDATE's application entry counts down `remaining`; it started with `pieces` messages, and
   * an empty update can have none.
   */
  datatype Request = Request(
    isSet: bool,
    app: ApplicationId,
    unsent: multiset<Server>,
    entries: multiset<Server>,
    wire: multiset<Server>,
    finishing: nat,
    pieces: nat,
    remaining: int)

  /** `apps` are the entries of the application pending map; `replies` what the applications were sent. */
  datatype ClientState = ClientState(requests: map<RequestId, Request>, apps: set<ApplicationId>,
                                     replies: multiset<ApplicationId>)

  datatype Step =
      StartSet(r: RequestId, app: ApplicationId, servers: multiset<Server>)
    | StartUpdate(r: RequestId, app: ApplicationId, servers: multiset<Server>)
    | Send(r: RequestId, p: Server)
    | Respond(r: RequestId, p: Server)
    | Finish(r: RequestId)

  /** SET enters all its messages in the server map before the first is sent. */
  function StartedSet(app: ApplicationId, servers: multiset<Server>): Request {
    Request(true, app, servers, servers, multiset{}, 0, 0, 0)
  }

  /** UPDATE enters each message when it is sent, but knows their number from the start. */
  function StartedUpdate(app: ApplicationId, servers: multiset<Server>): Request {
    Request(false, app, servers, multiset{}, multiset{}, 0, |servers|, |servers|)
  }

  /** Consecutive splits go to consecutive data servers. */
  function DataServer(data: seq<Server>, chunkId: nat, splitIndex: nat): Server
    requires |data| > 0
  {
    data[(chunkId + splitIndex) % |data|]
  }

  /** The servers of a SET: for every split its data server and all parity servers. */
  ghost function SetServers(data: seq<Server>, parity: seq<Server>, chunkId: nat, numSplit: nat): multiset<Server>
    requires |data| > 0
  {
    if numSplit == 0 then multiset{}
    else SetServers(data, parity, chunkId, numSplit - 1)
         + (multiset{DataServer(data, chunkId, numSplit - 1)} + multiset(parity))
  }

  /** Split 0 goes to the chunk of its key. */
  lemma FirstDataServer(data: seq<Server>, chunkId: nat)
    requires chunkId < |data|
    ensures DataServer(data, chunkId, 0) == data[chunkId]
  {
    ModUnique(chunkId, 0, chunkId, |data|);
  }

  /** And the next split to the next data server, behind the last to the first. */
  lemma NextDataServer(data: seq<Server>, chunkId: nat, splitIndex: nat) returns (x: nat)
    requires |data| > 0
    ensures x < |data| && DataServer(data, chunkId, splitIndex) == data[x]
    ensures DataServer(data, chunkId, splitIndex + 1) == data[if x + 1 == |data| then 0 else x + 1]
  {
    var n, sum := |data|, chunkId + splitIndex;
    x := sum % n;
    var q := sum / n;
    if x + 1 == n {
      assert (q + 1) * n == q * n + n;
      ModUnique(sum + 1, q + 1, 0, n);
    } else {
      ModUnique(sum + 1, q, x + 1, n);
    }
  }

  /** Any |data| consecutive splits use every data server exactly once. */
  lemma EachDataServerOnce(data: seq<Server>, chunkId: nat, from: nat, x: nat) returns (splitIndex: nat)
    requires x < |data| && forall y, z :: 0 <= y < z < |data| ==> data[y] != data[z]
    ensures from <= splitIndex < from + |data| && DataServer(data, chunkId, splitIndex) == data[x]
    ensures forall i: nat :: from <= i < from + |data| && DataServer(data, chunkId, i) == data[x] ==> i == splitIndex
  {
    hide DataServer;
    var n, a := |data|, (chunkId + from) % |data|;
    splitIndex := from + if x >= a then x - a else x - a + n;
    DataServerAt(data, chunkId, from, splitIndex);
    forall i: nat | from <= i < from + |data| && DataServer(data, chunkId, i) == data[x]
      ensures i == splitIndex
    {
      DataServerAt(data, chunkId, from, i);
    }
  }

  lemma DataServerAt(data: seq<Server>, chunkId: nat, from: nat, i: nat)
    requires |data| > 0 && from <= i < from + |data|
    ensures var x := (chunkId + from) % |data| + (i - from);
            DataServer(data, chunkId, i) == data[if x < |data| then x else x - |data|]
  {
    var n := |data|;
    var q, a := (chunkId + from) / n, (chunkId + from) % n;
    assert (q + 1) * n == q * n + n;
    if a + (i - from) < n {
      ModUnique(chunkId + i, q, a + (i - from), n);
    } else {
      ModUnique(chunkId + i, q + 1, a + (i - from) - n, n);
    }
  }

  /** A data server gets a message for each of its splits, a parity server one for every split. */
  lemma {:induction false} SetServersOf(data: seq<Server>, parity: seq<Server>, chunkId: nat, numSplit: nat, p: Server)
    requires |data| > 0
    ensures SetServers(data, parity, chunkId, numSplit)[p]
            == |set i | 0 <= i < numSplit && DataServer(data, chunkId, i) == p| + numSplit * multiset(parity)[p]
  {
    hide DataServer;
    if numSplit > 0 {
      var last := numSplit - 1;
      SetServersOf(data, parity, chunkId, last, p);
      OwnSplits(data, chunkId, last, p);
      assert numSplit * multiset(parity)[p] == last * multiset(parity)[p] + multiset(parity)[p];
    }
  }

  lemma OwnSplits(data: seq<Server>, chunkId: nat, n: nat, p: Server)
    requires |data| > 0
    ensures |set i | 0 <= i < n + 1 && DataServer(data, chunkId, i) == p|
            == |set i | 0 <= i < n && DataServer(data, chunkId, i) == p|
               + if DataServer(data, chunkId, n) == p then 1 else 0
  {
    hide DataServer;
    var fewer := set i | 0 <= i < n && DataServer(data, chunkId, i) == p;
    var own := set i | 0 <= i < n + 1 && DataServer(data, chunkId, i) == p;
    assert own == if DataServer(data, chunkId, n) == p then fewer + {n} else fewer;
  }

  /** There are (m + 1) * numSplit of them, so the request is never empty. */
  lemma {:induction false} SetFanOut(data: seq<Server>, parity: seq<Server>, chunkId: nat, numSplit: nat)
    requires |data| > 0
    ensures |SetServers(data, parity, chunkId, numSplit)| == numSplit * (|parity| + 1)
  {
    if numSplit > 0 {
      SetFanOut(data, parity, chunkId, numSplit - 1);
      assert numSplit * (|parity| + 1) == (numSplit - 1) * (|parity| + 1) + |parity| + 1;
    }
  }

  function Sent(q: Request, p: Server): Request {
    q.(unsent := q.unsent - multiset{p}, wire := q.wire + multiset{p},
       entries := if q.isSet then q.entries else q.entries + multiset{p})
  }

  /**
   * A response takes its entry off the server map, or is discarded if there is none. A SET response goes on to the
   * application's entry only when it took the last one.
   */
  function Responded(q: Request, p: Server): Request {
    var entries := q.entries - multiset{p};
    if p !in q.entries then
      q.(wire := q.wire - multiset{p})
    else
      q.(wire := q.wire - multiset{p}, entries := entries,
         finishing := if !q.isSet || |entries| == 0 then q.finishing + 1 else q.finishing)
  }

  ghost predicate Enabled(s: ClientState, step: Step) {
    match step
    case StartSet(r, app, servers) =>
      r !in s.requests && |servers| > 0 && app !in s.apps && app !in s.replies
      && forall x :: x in s.requests ==> s.requests[x].app != app
    case StartUpdate(r, app, servers) =>
      r !in s.requests && app !in s.apps && app !in s.replies
      && forall x :: x in s.requests ==> s.requests[x].app != app
    case Send(r, p) => r in s.requests && p in s.requests[r].unsent
    case Respond(r, p) => r in s.requests && p in s.requests[r].wire
    case Finish(r) => r in s.requests && s.requests[r].finishing > 0
  }

  /**
   * The handler reaches the application's entry: an UPDATE counts down; an entry that is done is
   * erased and answered.
   */
  function Finished(s: ClientState, r: RequestId): ClientState
    requires r in s.requests && s.requests[r].finishing > 0
  {
    var q := s.requests[r];
    if q.app !in s.apps then
      // nobody waits for it any more
      s.(requests := s.requests[r := q.(finishing := q.finishing - 1)])
    else
      var q' := q.(finishing := q.finishing - 1, remaining := if q.isSet then 0 else q.remaining - 1);
      if q'.remaining == 0
      then ClientState(s.requests[r := q'], s.apps - {q.app}, s.replies + multiset{q.app})
      else s.(requests := s.requests[r := q'])
  }

  ghost function Apply(s: ClientState, step: Step): ClientState
    requires Enabled(s, step)
  {
    match step
    case StartSet(r, app, servers) => s.(requests := s.requests[r := StartedSet(app, servers)], apps := s.apps + {app})
    case StartUpdate(r, app, servers) =>
      s.(requests := s.requests[r := StartedUpdate(app, servers)], apps := s.apps + {app})
    case Send(r, p) => s.(requests := s.requests[r := Sent(s.requests[r], p)])
    case Respond(r, p) => s.(requests := s.requests[r := Responded(s.requests[r], p)])
    case Finish(r) => Finished(s, r)
  }

  /** The accounts of one request agree; it has been answered `answers` times. */
  ghost predicate Consistent(q: Request, open: bool, answers: nat) {
    if q.isSet then
      && q.entries == q.unsent + q.wire
      && (if |q.entries| > 0 then q.finishing == 0 && answers == 0 && open
          else q.finishing + answers == 1 && (open <==> answers == 0))
    else
      && q.entries == q.wire
      && q.remaining == |q.unsent| + |q.wire| + q.finishing
      && q.remaining <= q.pieces
      && (open <==> q.remaining > 0 || q.pieces == 0)
      && answers == (if q.remaining > 0 || q.pieces == 0 then 0 else 1)
  }

  ghost predicate Inv(s: ClientState) {
    && (forall r :: r in s.requests ==>
          Consistent(s.requests[r], s.requests[r].app in s.apps, s.replies[s.requests[r].app]))
    && (forall r, x :: r in s.requests && x in s.requests && r != x ==> s.requests[r].app != s.requests[x].app)
  }

  lemma StartedConsistent(app: ApplicationId, servers: multiset<Server>)
    ensures |servers| > 0 ==> Consistent(StartedSet(app, servers), true, 0)
    ensures Consistent(StartedUpdate(app, servers), true, 0)
    ensures StartedSet(app, servers).app == StartedUpdate(app, servers).app == app
  {
  }

  lemma SentConsistent(q: Request, p: Server, open: bool, answers: nat)
    requires Consistent(q, open, answers) && p in q.unsent
    ensures Consistent(Sent(q, p), open, answers) && Sent(q, p).app == q.app
  {
    var q' := Sent(q, p);
    assert |q'.unsent| == |q.unsent| - 1 && |q'.wire| == |q.wire| + 1;
    if q.isSet {
      assert q'.unsent + q'.wire == q.unsent + q.wire;
    }
  }

  /** A response always finds its entry. */
  lemma RespondedConsistent(q: Request, p: Server, open: bool, answers: nat)
    requires Consistent(q, open, answers) && p in q.wire
    ensures p in q.entries && Consistent(Responded(q, p), open, answers) && Responded(q, p).app == q.app
  {
    var q' := Responded(q, p);
    assert |q'.wire| == |q.wire| - 1 && |q'.entries| == |q.entries| - 1;
    if q.isSet {
      assert q'.entries == q.unsent + q'.wire;
    }
  }

  /** The application's entry is always found, and the counting reaches zero with the last response. */
  lemma FinishedConsistent(s: ClientState, r: RequestId)
    requires Inv(s) && r in s.requests && s.requests[r].finishing > 0
    ensures var s', q := Finished(s, r), s.requests[r];
            && q.app in s.apps
            && s'.requests.Keys == s.requests.Keys && s'.requests[r].app == q.app
            && (forall x :: x in s.requests && x != r ==> s'.requests[x] == s.requests[x])
            && Consistent(s'.requests[r], q.app in s'.apps, s'.replies[q.app])
            && (forall a :: a != q.app ==> (a in s'.apps <==> a in s.apps) && s'.replies[a] == s.replies[a])
            && (s'.replies[q.app] > s.replies[q.app]
                ==> q.unsent == multiset{} && q.wire == multiset{} && q.finishing == 1)
  {
    var q := s.requests[r];
    assert Consistent(q, q.app in s.apps, s.replies[q.app]);
    assert q.isSet ==> |q.unsent| + |q.wire| == |q.entries|;
  }

  lemma NewRequestKeepsInv(s: ClientState, r: RequestId, q: Request)
    requires Inv(s) && r !in s.requests && Consistent(q, true, 0) && q.app !in s.replies
    requires forall x :: x in s.requests ==> s.requests[x].app != q.app
    ensures Inv(s.(requests := s.requests[r := q], apps := s.apps + {q.app}))
  {
    hide Consistent;
  }

  lemma SameAppKeepsInv(s: ClientState, r: RequestId, q: Request)
    requires Inv(s) && r in s.requests && q.app == s.requests[r].app
    requires Consistent(q, q.app in s.apps, s.replies[q.app])
    ensures Inv(s.(requests := s.requests[r := q]))
  {
    hide Consistent;
  }

  lemma StepKeepsInv(s: ClientState, step: Step)
    requires Inv(s) && Enabled(s, step)
    ensures Inv(Apply(s, step))
  {
    hide StartedSet, StartedUpdate, Sent, Responded, Finished, Consistent;
    match step
    case StartSet(r, app, servers) =>
      StartedConsistent(app, servers);
      NewRequestKeepsInv(s, r, StartedSet(app, servers));
    case StartUpdate(r, app, servers) =>
      StartedConsistent(app, servers);
      NewRequestKeepsInv(s, r, StartedUpdate(app, servers));
    case Send(r, p) =>
      SentConsistent(s.requests[r], p, s.requests[r].app in s.apps, s.replies[s.requests[r].app]);
      SameAppKeepsInv(s, r, Sent(s.requests[r], p));
    case Respond(r, p) =>
      RespondedConsistent(s.requests[r], p, s.requests[r].app in s.apps, s.replies[s.requests[r].app]);
      SameAppKeepsInv(s, r, Responded(s.requests[r], p));
    case Finish(r) => FinishedConsistent(s, r);
  }

  ghost predicate Next(s: ClientState, step: Step, s': ClientState) {
    Enabled(s, step) && s' == Apply(s, step)
  }

  /** A client that starts with nothing pending. */
  ghost predicate Run(trace: seq<ClientState>, steps: seq<Step>) {
    && |trace| == |steps| + 1 && trace[0] == ClientState(map[], {}, multiset{})
    && forall i, j :: 0 <= i < |steps| && j == i + 1 ==> Next(trace[i], steps[i], trace[j])
  }

  lemma {:induction false} RunKeepsInv(trace: seq<ClientState>, steps: seq<Step>, i: nat)
    requires Run(trace, steps) && i < |trace|
    ensures Inv(trace[i])
  {
    hide Apply, Consistent;
    if i > 0 {
      RunKeepsInv(trace, steps, i - 1);
      assert Next(trace[i - 1], steps[i - 1], trace[i]);
      StepKeepsInv(trace[i - 1], steps[i - 1]);
    }
  }

  /** All responses to the request have been handled. */
  ghost predicate Done(q: Request) {
    q.unsent == multiset{} && q.wire == multiset{} && q.finishing == 0
  }

  /** A SET, or an UPDATE with something to update. */
  ghost predicate HasMessages(q: Request) {
    q.isSet || q.pieces > 0
  }

  lemma AnsweredIff(q: Request, open: bool, answers: nat)
    requires Consistent(q, open, answers)
    ensures answers == (if Done(q) && HasMessages(q) then 1 else 0) && (open <==> !(Done(q) && HasMessages(q)))
  {
    assert q.isSet ==> |q.entries| == |q.unsent| + |q.wire|;
  }

  /**
   * In every state of every run a request that has messages has been answered once if all its responses are handled
   * and not at all before; a request without messages is never answered.
   */
  lemma AnsweredOnceWhenDone(trace: seq<ClientState>, steps: seq<Step>, i: nat, r: RequestId)
    requires Run(trace, steps) && i < |trace| && r in trace[i].requests
    ensures var q := trace[i].requests[r];
            trace[i].replies[q.app] == if Done(q) && HasMessages(q) then 1 else 0
  {
    hide Run, Consistent, Done, HasMessages;
    RunKeepsInv(trace, steps, i);
    var q := trace[i].requests[r];
    AnsweredIff(q, q.app in trace[i].apps, trace[i].replies[q.app]);
  }

  lemma StepKeepsRequest(s: ClientState, step: Step, r: RequestId)
    requires Enabled(s, step) && r in s.requests
    ensures r in Apply(s, step).requests
    ensures var q, q' := s.requests[r], Apply(s, step).requests[r];
            q'.isSet == q.isSet && q'.app == q.app && q'.pieces == q.pieces
  {
  }

  /** A request keeps its kind, its application and its number of pieces. */
  lemma {:induction false} RequestStays(trace: seq<ClientState>, steps: seq<Step>, i: nat, j: nat, r: RequestId)
    requires Run(trace, steps) && i <= j < |trace| && r in trace[i].requests
    ensures r in trace[j].requests
    ensures var q, q' := trace[i].requests[r], trace[j].requests[r];
            q'.isSet == q.isSet && q'.app == q.app && q'.pieces == q.pieces
  {
    hide Apply, Enabled;
    if i < j {
      RequestStays(trace, steps, i, j - 1, r);
      assert Next(trace[j - 1], steps[j - 1], trace[j]);
      StepKeepsRequest(trace[j - 1], steps[j - 1], r);
    }
  }

  /** The answer is given when the last response is handled, in the step that handles it. */
  lemma AnsweredAtLastResponse(trace: seq<ClientState>, steps: seq<Step>, i: nat, r: RequestId)
    requires Run(trace, steps) && i < |steps| && r in trace[i].requests
    requires trace[i + 1].replies[trace[i].requests[r].app] > trace[i].replies[trace[i].requests[r].app]
    ensures var q := trace[i].requests[r];
            steps[i] == Finish(r) && q.unsent == multiset{} && q.wire == multiset{} && q.finishing == 1
  {
    RunKeepsInv(trace, steps, i);
    assert Next(trace[i], steps[i], trace[i + 1]);
    hide Run, Consistent, Finished, Sent, Responded;
    match steps[i]
    case Finish(x) => FinishedConsistent(trace[i], x);
    case _ =>
  }

  /** Responses are never discarded: each finds its entry in the server map, and then the application's entry. */
  lemma NothingDiscarded(trace: seq<ClientState>, steps: seq<Step>, i: nat, r: RequestId, p: Server)
    requires Run(trace, steps) && i < |steps| && r in trace[i].requests
    ensures steps[i] == Respond(r, p) ==> p in trace[i].requests[r].entries
    ensures steps[i] == Finish(r) ==> trace[i].requests[r].app in trace[i].apps
  {
    RunKeepsInv(trace, steps, i);
    assert Next(trace[i], steps[i], trace[i + 1]);
    hide Run;
    var q := trace[i].requests[r];
    assert Consistent(q, q.app in trace[i].apps, trace[i].replies[q.app]);
    if steps[i] == Finish(r) {
      FinishedConsistent(trace[i], r);
    }
  }
}
