/**
  `active_poller_t`: a poller that owns a handler per socket.  The poller underneath only
  stores pointers to the handlers, and handlers may change the poller while it dispatches.
 */
module ActivePoller {
  type Socket = nat
  type Events = nat
  /** The address of a handler on the heap. */
  type Handler = nat

  datatype Registration = Registration(events: Events, userData: Handler)

  /** The poller of libzmq: a registration per socket.  Any call may fail and then changes nothing. */
  class BasePoller {
    var registered: map<Socket, Registration>

    constructor ()
      ensures registered == map[]
    {
      registered := map[];
    }

    method Add(socket: Socket, events: Events, userData: Handler, works: bool) returns (ok: bool)
      modifies this
      ensures ok == (works && socket !in old(registered))
      ensures registered == if ok then old(registered)[socket := Registration(events, userData)] else old(registered)
    {
      ok := works && socket !in registered;
      if ok {
        registered := registered[socket := Registration(events, userData)];
      }
    }

    method Remove(socket: Socket, works: bool) returns (ok: bool)
      modifies this
      ensures ok == (works && socket in old(registered))
      ensures registered == if ok then old(registered) - {socket} else old(registered)
    {
      ok := works && socket in registered;
      if ok {
        registered := registered - {socket};
      }
    }

    method Modify(socket: Socket, events: Events, works: bool) returns (ok: bool)
      modifies this
      ensures ok == (works && socket in old(registered))
      ensures registered ==
              if ok then old(registered)[socket := Registration(events, old(registered)[socket].userData)]
              else old(registered)
    {
      ok := works && socket in registered;
      if ok {
        registered := registered[socket := Registration(events, registered[socket].userData)];
      }
    }
  }

  datatype AddResult = Added | NullHandler | AlreadyAdded | BaseFailed

  /** What a handler may do to the poller that called it, and whether the poller underneath goes along. */
  datatype Operation =
    | DoAdd(socket: Socket, events: Events, hasHandler: bool, works: bool)
    | DoRemove(socket: Socket, works: bool)
    | DoModify(socket: Socket, events: Events, works: bool)

  /** All handlers of a map, in any order. */
  method ListHandlers(handlers: map<Socket, Handler>) returns (list: seq<Handler>)
    ensures forall h :: h in list <==> h in handlers.Values
    ensures |list| == |handlers|
  {
    list := [];
    var rest := handlers.Keys;
    while rest != {}
      invariant rest <= handlers.Keys
      invariant forall s :: s in handlers && s !in rest ==> handlers[s] in list
      invariant forall h :: h in list ==> h in handlers.Values
      invariant |list| + |rest| == |handlers|
      decreases rest
    {
      var s :| s in rest;
      list := list + [handlers[s]];
      rest := rest - {s};
    }
  }

  /** Each socket is registered with the address of its own handler. */
  ghost predicate Agree(registered: map<Socket, Registration>, handlers: map<Socket, Handler>, next: Handler) {
    && registered.Keys == handlers.Keys
    && (forall s :: s in handlers ==> registered[s].userData == handlers[s] < next)
    && (forall s, t :: s in handlers && t in handlers && handlers[s] == handlers[t] ==> s == t)
  }

  /** The list has room for an event per socket and holds every handler. */
  ghost predicate Listed(handlers: map<Socket, Handler>, list: seq<Handler>, events: nat) {
    events == |handlers| && forall s :: s in handlers ==> handlers[s] in list
  }

  lemma AddedAgrees(registered: map<Socket, Registration>, handlers: map<Socket, Handler>, next: Handler,
                    socket: Socket, events: Events)
    requires Agree(registered, handlers, next) && socket !in handlers
    ensures Agree(registered[socket := Registration(events, next)], handlers[socket := next], next + 1)
    ensures Agree(registered, handlers, next + 1)
    ensures handlers[socket := next] - {socket} == handlers
  {
  }

  class ActivePoller {
    const base: BasePoller
    var handlers: map<Socket, Handler>
    var pollerHandlers: seq<Handler>
    var pollerEvents: nat
    var needRebuild: bool
    /** Addresses from here on have never been used. */
    var nextHandler: Handler

    constructor ()
      ensures Valid() && fresh(base) && handlers == map[]
    {
      base := new BasePoller();
      handlers, pollerHandlers, pollerEvents, needRebuild, nextHandler := map[], [], 0, false, 0;
    }

    /** The handlers kept alive by a shared pointer. */
    ghost function Owned(): set<Handler>
      reads this
    {
      handlers.Values + set h | h in pollerHandlers
    }

    /** The poller underneath and the handler map agree, and a list that needs no rebuilding is complete. */
    ghost predicate Valid()
      reads this, base
    {
      && Agree(base.registered, handlers, nextHandler)
      && (!needRebuild ==> Listed(handlers, pollerHandlers, pollerEvents))
    }

    method Add(socket: Socket, events: Events, hasHandler: bool, works: bool) returns (r: AddResult)
      requires Valid()
      modifies this, base
      ensures Valid() && pollerHandlers == old(pollerHandlers)
      ensures r == if !hasHandler then NullHandler
                   else if socket in old(handlers) then AlreadyAdded
                   else if works then Added
                   else BaseFailed
      ensures r.Added? ==>
                var h := old(nextHandler);
                && handlers == old(handlers)[socket := h] && needRebuild
                && base.registered == old(base.registered)[socket := Registration(events, h)]
      ensures !r.Added? ==>
                handlers == old(handlers) && base.registered == old(base.registered) && needRebuild == old(needRebuild)
    {
      if !hasHandler {
        return NullHandler;
      }
      var handler := nextHandler;
      if socket in handlers {
        return AlreadyAdded;
      }
      AddedAgrees(base.registered, handlers, nextHandler, socket, events);
      hide Agree, Listed;
      nextHandler := nextHandler + 1;
      handlers := handlers[socket := handler];
      var ok := base.Add(socket, events, handler, works);
      if !ok {
        handlers := handlers - {socket};
        return BaseFailed;
      }
      needRebuild := true;
      return Added;
    }

    method Remove(socket: Socket, works: bool) returns (ok: bool)
      requires Valid()
      modifies this, base
      ensures Valid() && pollerHandlers == old(pollerHandlers) && nextHandler == old(nextHandler)
      ensures ok == (works && socket in old(handlers))
      ensures ok ==>
                && handlers == old(handlers) - {socket} && needRebuild
                && base.registered == old(base.registered) - {socket}
      ensures !ok ==>
                && handlers == old(handlers) && base.registered == old(base.registered)
                && needRebuild == old(needRebuild)
    {
      ok := base.Remove(socket, works);
      if !ok {
        return;
      }
      handlers := handlers - {socket};
      needRebuild := true;
    }

    method Modify(socket: Socket, events: Events, works: bool) returns (ok: bool)
      requires Valid()
      modifies base
      ensures Valid() && ok == (works && socket in handlers)
      ensures base.registered ==
              if ok then old(base.registered)[socket := Registration(events, handlers[socket])]
              else old(base.registered)
    {
      ok := base.Modify(socket, events, works);
    }

    /** What a handler does, step by step. */
    method Perform(operations: seq<Operation>)
      requires Valid()
      modifies this, base
      ensures Valid() && pollerHandlers == old(pollerHandlers)
    {
      for i := 0 to |operations|
        invariant Valid() && pollerHandlers == old(pollerHandlers)
      {
        match operations[i] {
          case DoAdd(socket, events, hasHandler, works) =>
            var _ := Add(socket, events, hasHandler, works);
          case DoRemove(socket, works) =>
            var _ := Remove(socket, works);
          case DoModify(socket, events, works) =>
            var _ := Modify(socket, events, works);
        }
      }
    }

    /** The handlers are listed again, in any order, after sockets came or went. */
    method Rebuild()
      requires Valid()
      modifies this
      ensures Valid() && !needRebuild && handlers == old(handlers) && nextHandler == old(nextHandler)
      ensures old(needRebuild) ==> (set h | h in pollerHandlers) == handlers.Values
      ensures !old(needRebuild) ==> pollerHandlers == old(pollerHandlers)
    {
      if needRebuild {
        pollerEvents := |handlers|;
        pollerHandlers := ListHandlers(handlers);
        needRebuild := false;
      }
    }

    /** What `wait_all` fills in: for each ready socket the pointer it was registered with. */
    method WaitAll(ready: seq<Socket>) returns (events: seq<Handler>)
      requires Valid() && forall i :: 0 <= i < |ready| ==> ready[i] in handlers
      ensures |events| == |ready| && forall i :: 0 <= i < |ready| ==> events[i] == handlers[ready[i]]
    {
      hide Listed;
      events := seq(|ready|, i requires 0 <= i < |ready| && ready[i] in base.registered reads base =>
                      base.registered[ready[i]].userData);
    }

    /**
      `wait`: `ready` are the sockets that `wait_all` reports, at most as many as there is room
      for.  Their handlers are called one after another, each doing what `acts` says.  Every
      handler called is owned by the list made beforehand, to the very end, whatever the
      handlers do to the poller.
     */
    method Wait(ready: seq<Socket>, acts: Handler -> seq<Operation>) returns (called: seq<Handler>)
      requires Valid()
      requires |ready| <= |handlers| && forall i :: 0 <= i < |ready| ==> ready[i] in handlers
      modifies this, base
      ensures Valid()
      ensures |called| == |ready| && forall i :: 0 <= i < |ready| ==> called[i] == old(handlers[ready[i]])
      ensures forall i :: 0 <= i < |called| ==> called[i] in pollerHandlers && called[i] in Owned()
      ensures !old(needRebuild) ==> pollerHandlers == old(pollerHandlers)
      ensures old(needRebuild) ==> (set h | h in pollerHandlers) == old(handlers.Values)
    {
      Rebuild();
      assert |ready| <= pollerEvents;
      var events := WaitAll(ready);
      ghost var kept := pollerHandlers;
      assert forall i :: 0 <= i < |events| ==> events[i] in kept;
      hide Agree, Listed;
      called := [];
      for i := 0 to |events|
        invariant Valid() && pollerHandlers == kept
        invariant called == events[..i]
      {
        assert events[i] in Owned();
        called := called + [events[i]];
        Perform(acts(events[i]));
      }
    }
  }
}
