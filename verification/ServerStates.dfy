/** What a client knows about the servers' states. */
module ServerStates {
  /** A server's address; when a server is replaced, its position gets another address. */
  type Server = nat

  datatype RemapState =
      Undefined
    | Normal
    | Intermediate
    | Coordinated
    | Degraded
    | WaitDegraded
    | WaitNormal

  predicate AllowRemapping(states: map<Server, RemapState>, server: Server) {
    server in states && (states[server].Intermediate? || states[server].WaitDegraded? || states[server].Degraded?)
  }

  predicate UseCoordinatedFlow(states: map<Server, RemapState>, server: Server) {
    server in states && states[server] != Normal
  }
}
