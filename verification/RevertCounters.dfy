/**
 * Counting the parity reverts a client waits for before it acknowledges a server's transition. Worker threads,
 * the event queue and the transition handler interleave; each step below is one lock-protected action.
 */
module RevertCounters {
  import opened ServerStates

  type RequestId = nat

  /** A revert request sent to a server and not yet answered. */
  datatype Ack = Ack(server: Server, requestId: RequestId)

  /**
   * All that carries the parityRevert counter of one target: events not yet in the event queue, events in it,
   * pending acks, and acks taken off the pending map whose decrement is still to come. `asked` and `settled` count
   * increments and decrements since the start.
   */
  datatype Account = Account(
    counter: int,
    staged: multiset<Server>,
    queued: multiset<Server>,
    acks: set<Ack>,
    erased: nat,
    asked: nat,
    settled: nat)

  datatype ClientState = ClientState(
    states: map<Server, RemapState>,
    completed: set<Server>,
    accounts: map<Server, Account>)

  datatype Step =
      Stage(target: Server, other: Server)
    | Enqueue(target: Server, other: Server)
    | Dispatch(target: Server, other: Server, requestId: RequestId)
    | EraseAck(target: Server, ack: Ack)
    | EraseAcksOf(server: Server)
    | Decrement(target: Server)
    | SetCompleted(target: Server, done: bool)
    | Signal(target: Server, signal: RemapState)
    | CheckAck(target: Server)

  ghost predicate Enabled(s: ClientState, step: Step) {
    match step
    case Stage(t, p) => t in s.accounts && p != t && !UseCoordinatedFlow(s.states, p)
    case Enqueue(t, p) => t in s.accounts && p in s.accounts[t].staged
    case Dispatch(t, p, r) => t in s.accounts && p in s.accounts[t].queued
                              && forall u :: u in s.accounts ==> Ack(p, r) !in s.accounts[u].acks
    case EraseAck(t, a) => t in s.accounts && a in s.accounts[t].acks
    case EraseAcksOf(p) => true
    case Decrement(t) => t in s.accounts && s.accounts[t].erased > 0
    case SetCompleted(t, done) => t in s.states
    case Signal(t, signal) => t in s.states
    case CheckAck(t) => t in s.states && t in s.accounts
  }

  // ----- what the steps do to an account -----

  function Staged(a: Account, p: Server): Account {
    a.(counter := a.counter + 1, staged := a.staged + multiset{p}, asked := a.asked + 1)
  }

  function Enqueued(a: Account, p: Server): Account {
    a.(staged := a.staged - multiset{p}, queued := a.queued + multiset{p})
  }

  function Dispatched(a: Account, p: Server, r: RequestId): Account {
    a.(queued := a.queued - multiset{p}, acks := a.acks + {Ack(p, r)})
  }

  function Erased(a: Account, k: Ack): Account {
    a.(acks := a.acks - {k}, erased := a.erased + 1)
  }

  /** removePending takes every ack of the server off the map. */
  function WithoutAcksOf(a: Account, p: Server): Account {
    var gone := set k | k in a.acks && k.server == p;
    a.(acks := a.acks - gone, erased := a.erased + |gone|)
  }

  function Decremented(a: Account): Account
    requires a.erased > 0
  {
    a.(counter := a.counter - 1, erased := a.erased - 1, settled := a.settled + 1)
  }

  /** checkAckForServer. */
  function AfterCheck(s: ClientState, t: Server): RemapState
    requires t in s.states && t in s.accounts
  {
    match s.states[t]
    case Intermediate => if s.accounts[t].counter != 0 || t !in s.completed then Intermediate else WaitDegraded
    case Coordinated => WaitNormal
    case other => other
  }

  /** The state setState gives a server: a transition already acknowledged is not started again. */
  function AfterSignal(state: RemapState, signal: RemapState): RemapState {
    match signal
    case Intermediate => if state == WaitDegraded then state else signal
    case Coordinated => if state == WaitNormal then state else signal
    case _ => signal
  }

  /** A server that may get substitutes keeps them through the acknowledgement and the signals of its failure. */
  lemma StaysRemappable(s: ClientState, t: Server)
    requires t in s.states && t in s.accounts && AllowRemapping(s.states, t)
    ensures AllowRemapping(s.states[t := AfterCheck(s, t)], t)
    ensures AllowRemapping(s.states[t := AfterSignal(s.states[t], Intermediate)], t)
    ensures AllowRemapping(s.states[t := AfterSignal(s.states[t], Degraded)], t)
  {
  }

  ghost function Apply(s: ClientState, step: Step): ClientState
    requires Enabled(s, step)
  {
    match step
    case Stage(t, p) => s.(accounts := s.accounts[t := Staged(s.accounts[t], p)])
    case Enqueue(t, p) => s.(accounts := s.accounts[t := Enqueued(s.accounts[t], p)])
    case Dispatch(t, p, r) => s.(accounts := s.accounts[t := Dispatched(s.accounts[t], p, r)])
    case EraseAck(t, k) => s.(accounts := s.accounts[t := Erased(s.accounts[t], k)])
    case EraseAcksOf(p) => s.(accounts := map t | t in s.accounts :: WithoutAcksOf(s.accounts[t], p))
    case Decrement(t) => s.(accounts := s.accounts[t := Decremented(s.accounts[t])])
    case SetCompleted(t, done) =>
      s.(completed := if done then s.completed + {t} else s.completed - {t})
    case Signal(t, signal) =>
      var next := AfterSignal(s.states[t], signal);
      s.(states := s.states[t := next],
         completed := if signal == Intermediate && s.states[t] != WaitDegraded then s.completed - {t} else s.completed)
    case CheckAck(t) =>
      s.(states := s.states[t := AfterCheck(s, t)])
  }

  /** The counter is exactly what still carries it. */
  ghost predicate Conserved(a: Account) {
    && a.counter == |a.staged| + |a.queued| + |a.acks| + a.erased
    && a.asked == a.settled + a.counter
  }

  ghost predicate Inv(s: ClientState) {
    s.states.Keys == s.accounts.Keys && forall t :: t in s.accounts ==> Conserved(s.accounts[t])
  }

  const FRESH := Account(0, multiset{}, multiset{}, {}, 0, 0, 0)

  ghost predicate Init(s: ClientState) {
    && s.states.Keys == s.accounts.Keys
    && forall t :: t in s.accounts ==> s.states[t] == Normal && s.accounts[t] == FRESH
  }

  lemma StagedConserves(a: Account, p: Server)
    requires Conserved(a)
    ensures Conserved(Staged(a, p))
  {
  }

  lemma EnqueuedConserves(a: Account, p: Server)
    requires Conserved(a) && p in a.staged
    ensures Conserved(Enqueued(a, p))
  {
  }

  lemma DispatchedConserves(a: Account, p: Server, r: RequestId)
    requires Conserved(a) && p in a.queued && Ack(p, r) !in a.acks
    ensures Conserved(Dispatched(a, p, r))
  {
  }

  lemma ErasedConserves(a: Account, k: Ack)
    requires Conserved(a) && k in a.acks
    ensures Conserved(Erased(a, k))
  {
  }

  lemma WithoutAcksConserves(a: Account, p: Server)
    requires Conserved(a)
    ensures Conserved(WithoutAcksOf(a, p))
  {
    var gone := set k | k in a.acks && k.server == p;
    assert |a.acks - gone| == |a.acks| - |gone|;
  }

  lemma StepKeepsInv(s: ClientState, step: Step)
    requires Inv(s) && Enabled(s, step)
    ensures Inv(Apply(s, step))
  {
    hide Conserved, Staged, Enqueued, Dispatched, Erased, WithoutAcksOf, Decremented, AfterCheck, AfterSignal;
    match step
    case Stage(t, p) => StagedConserves(s.accounts[t], p);
    case Enqueue(t, p) => EnqueuedConserves(s.accounts[t], p);
    case Dispatch(t, p, r) => DispatchedConserves(s.accounts[t], p, r);
    case EraseAck(t, k) => ErasedConserves(s.accounts[t], k);
    case EraseAcksOf(p) =>
      forall t | t in s.accounts ensures Conserved(Apply(s, step).accounts[t]) {
        WithoutAcksConserves(s.accounts[t], p);
      }
    case Decrement(t) => DecrementedConserves(s.accounts[t]);
    case _ =>
  }

  lemma DecrementedConserves(a: Account)
    requires Conserved(a) && a.erased > 0
    ensures Conserved(Decremented(a))
  {
  }

  ghost predicate Next(s: ClientState, step: Step, s': ClientState) {
    Enabled(s, step) && s' == Apply(s, step)
  }

  ghost predicate Run(trace: seq<ClientState>, steps: seq<Step>) {
    && |trace| == |steps| + 1 && Init(trace[0])
    && forall i, j :: 0 <= i < |steps| && j == i + 1 ==> Next(trace[i], steps[i], trace[j])
  }

  /** In every state of every run the counters are conserved. */
  lemma {:induction false} RunKeepsInv(trace: seq<ClientState>, steps: seq<Step>, i: nat)
    requires Run(trace, steps) && i < |trace|
    ensures Inv(trace[i])
  {
    if i > 0 {
      RunKeepsInv(trace, steps, i - 1);
      assert Next(trace[i - 1], steps[i - 1], trace[i]);
      StepKeepsInv(trace[i - 1], steps[i - 1]);
    }
  }

  lemma StepOfRun(trace: seq<ClientState>, steps: seq<Step>, i: nat)
    requires Run(trace, steps) && i < |steps|
    ensures |trace| == |steps| + 1 && Inv(trace[i]) && Next(trace[i], steps[i], trace[i + 1])
  {
    hide Inv, Next;
    RunKeepsInv(trace, steps, i);
  }

  /** No decrement takes a counter below zero. */
  lemma NeverUnderflows(trace: seq<ClientState>, steps: seq<Step>, i: nat, t: Server)
    requires Run(trace, steps) && i < |steps| && t in trace[i].accounts
    ensures trace[i].accounts[t].counter >= 0
    ensures steps[i] == Decrement(t) ==> trace[i].accounts[t].counter > 0
  {
    hide Run, Apply;
    StepOfRun(trace, steps, i);
    assert Conserved(trace[i].accounts[t]);
  }

  /**
   * The transition to degraded mode is acknowledged exactly when the server is in INTERMEDIATE, its normal requests
   * are done, and nothing carries its counter any more: every server asked to revert has answered or was given up.
   */
  lemma AcknowledgedIffSettled(trace: seq<ClientState>, steps: seq<Step>, i: nat, t: Server)
    requires Run(trace, steps) && i < |steps| && steps[i] == CheckAck(t)
    ensures t in trace[i].states && t in trace[i].accounts && t in trace[i + 1].states
    ensures var s, a := trace[i], trace[i].accounts[t];
            (s.states[t] != WaitDegraded && trace[i + 1].states[t] == WaitDegraded)
            <==> (s.states[t] == Intermediate && t in s.completed && a.asked == a.settled
                  && a.staged == multiset{} && a.queued == multiset{} && a.acks == {} && a.erased == 0)
  {
    hide Run;
    StepOfRun(trace, steps, i);
    assert Conserved(trace[i].accounts[t]);
    EmptyAccount(trace[i].accounts[t]);
  }

  lemma EmptyAccount(a: Account)
    requires Conserved(a)
    ensures a.counter == 0 <==> a.staged == multiset{} && a.queued == multiset{} && a.acks == {} && a.erased == 0
    ensures a.counter == 0 <==> a.asked == a.settled
  {
  }
}
