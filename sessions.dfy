/** Sessions as the transport helpers see them: opaque objects, created with a
    timeout, a heartbeat period, the application's socket handler and a close
    handler, and indexed by id in a registry shared between transports. */
module Sessions {
  import opened Wrappers

  /** The identity of the application's `Handler<SockJSSocket>`; the handler
      itself is never called here. */
  datatype SockHandler = SockHandler(tag: nat)

  /** A session. Its state machine is not modelled; what is kept is what it was
      created with, including its close handler, which is the pair of the
      registry it removes itself from and the id it removes. */
  class Session {
    const timeout: int
    const heartbeatPeriod: int
    const sockHandler: SockHandler
    const closeRegistry: SessionRegistry
    const closeId: string

    constructor (timeout: int, heartbeatPeriod: int, sockHandler: SockHandler,
                 closeRegistry: SessionRegistry, closeId: string)
      ensures this.timeout == timeout && this.heartbeatPeriod == heartbeatPeriod
      ensures this.sockHandler == sockHandler
      ensures this.closeRegistry == closeRegistry && this.closeId == closeId
    {
      this.timeout := timeout;
      this.heartbeatPeriod := heartbeatPeriod;
      this.sockHandler := sockHandler;
      this.closeRegistry := closeRegistry;
      this.closeId := closeId;
    }

    /** Runs the close handler: the id is removed from the registry, and
        nothing else in the registry changes. */
    method FireCloseHandler()
      modifies closeRegistry
      ensures closeRegistry.sessions == old(closeRegistry.sessions) - {closeId}
      ensures closeId !in closeRegistry.sessions
      ensures forall id :: id in old(closeRegistry.sessions) && id != closeId ==>
                id in closeRegistry.sessions && closeRegistry.sessions[id] == old(closeRegistry.sessions[id])
      ensures old(closeRegistry.Valid()) ==> closeRegistry.Valid()
      ensures old(closeRegistry.Valid()) ==>
                forall id :: id in closeRegistry.sessions ==> closeRegistry.sessions[id] != this
    {
      closeRegistry.RemoveSession(closeId);
    }
  }

  /** The `Map<String, Session>` of live sessions, keyed by session id. */
  class SessionRegistry {
    var sessions: map<string, Session>

    /** Every entry was made for its own key: the session's close handler
        removes exactly the key under which it is stored. */
    ghost predicate Valid()
      reads this
    {
      forall id :: id in sessions ==> sessions[id].closeId == id && sessions[id].closeRegistry == this
    }

    constructor ()
      ensures sessions == map[] && Valid()
    {
      sessions := map[];
    }

    /** `get(id)`: the session stored under `id`, or None where Java returns null. */
    function Get(id: string): (r: Option<Session>)
      reads this
      ensures r.Some? <==> id in sessions
      ensures r.Some? ==> r.value == sessions[id]
    {
      if id in sessions then Some(sessions[id]) else None
    }

    /** `put(id, session)` */
    method Put(id: string, session: Session)
      modifies this
      ensures sessions == old(sessions)[id := session]
      ensures old(Valid()) && session.closeId == id && session.closeRegistry == this ==> Valid()
    {
      sessions := sessions[id := session];
    }

    /** `remove(id)`, the body of a session's close handler. */
    method RemoveSession(id: string)
      modifies this
      ensures sessions == old(sessions) - {id}
      ensures old(Valid()) ==> Valid()
    {
      sessions := sessions - {id};
    }
  }
}
