/**
  The bytes behind the steps of `Broadcast`: what the server makes of a serialized request, what
  the caller makes of the reply, and what a subscriber makes of a publication.
 */
module BroadcastMessages {
  import opened Common
  import opened RpcBasic
  import opened Serializer
  import opened CallMessages
  import Broadcast

  /** The function names bound at a node, with the parameter types of their functions. */
  type Bindings = map<Name, seq<Type>>

  function EncodeAnswer(machine: Order, name: Name, code: ReturnCode): Bytes {
    Message(machine, name, [if code == Done then SUCCESS_CODE else NOT_FOUND_CODE])
  }

  /** What goes out to the subscribers, and the reply. */
  datatype Response = Response(published: seq<(Name, Bytes)>, respond: Bytes)

  /** What the server does about a request; `None` is an exception from a malformed one. */
  function Answer(machine: Order, bound: set<Name>, request: Bytes): Option<Response> {
    match ReadName(machine, request)
    case None => None
    case Some(Opened(_, name, _)) =>
      if name in bound then Some(Response([(name, request)], EncodeAnswer(machine, name, Done)))
      else Some(Response([], EncodeAnswer(machine, name, NotFound)))
  }

  /** What a reply tells the caller of `name`; `None` is an exception from a malformed one. */
  function Understand(machine: Order, name: Name, respond: Bytes): Option<CallError> {
    match ReadName(machine, respond)
    case None => None
    case Some(Opened(_, retName, rest)) =>
      if rest == [] then None
      else if retName != name then Some(FunctionNameMismatch)
      else if rest[0] == SUCCESS_CODE then Some(Success)
      else Some(FunctionNotFound)
  }

  datatype Execution = Execution(name: Name, args: seq<Value>)

  /** The functions that a publication makes a node run; `None` is an exception from malformed arguments. */
  function Executions(machine: Order, rpcs: Bindings, envelope: Name, content: Bytes): Option<seq<Execution>> {
    if envelope !in rpcs then Some([])
    else
      match ReadName(machine, content)
      case None => None
      case Some(Opened(order, _, rest)) =>
        match DecodeFields(order, rpcs[envelope], rest)
        case None => None
        case Some((args, _)) => Some([Execution(envelope, args)])
  }

  /** What one publication looks like to a subscriber: the name as envelope, the request as content. */
  function Envelope(order: Order, p: Broadcast.Publication): (Name, Bytes) {
    (p.name, Message(order, p.name, p.args))
  }

  function Envelopes(order: Order, ps: seq<Broadcast.Publication>): seq<(Name, Bytes)> {
    seq(|ps|, i requires 0 <= i < |ps| => Envelope(order, ps[i]))
  }

  /** On bytes the server does what the protocol says: the same publication, or none, and the same reply. */
  lemma ServerFollowsProtocol(server: Order, caller: Order, bound: set<Name>, r: Broadcast.Request)
    ensures var (publications, reply) := Broadcast.ResponseProcess(bound, r);
            Answer(server, bound, Message(caller, r.name, r.args)) ==
            Some(Response(Envelopes(caller, publications), EncodeAnswer(server, reply.name, reply.code)))
  {
    NameRoundTrip(server, caller, r.name, r.args);
    assert Envelopes(caller, Broadcast.ResponseProcess(bound, r).0) ==
           if r.name in bound then [(r.name, Message(caller, r.name, r.args))] else [];
  }

  /** On bytes the caller draws the conclusion that the protocol says. */
  lemma CallerFollowsProtocol(caller: Order, server: Order, name: Name, r: Broadcast.Reply)
    ensures Understand(caller, name, EncodeAnswer(server, r.name, r.code)) == Some(Broadcast.CallResult(name, r))
  {
    NameRoundTrip(caller, server, r.name, [if r.code == Done then SUCCESS_CODE else NOT_FOUND_CODE]);
  }

  /** A published call reaches the function bound under its name with the arguments it was made with. */
  lemma PublicationRunsCall(machine: Order, caller: Order, rpcs: Bindings, name: Name, args: seq<Value>)
    requires name in rpcs ==> HaveTypes(args, rpcs[name])
    ensures Executions(machine, rpcs, name, EncodeRequest(caller, name, args)) ==
            Some(if name in rpcs then [Execution(name, args)] else [])
  {
    if name in rpcs {
      ArgumentsRoundTrip(machine, caller, name, rpcs[name], args);
    }
  }

  /**
    On bytes a subscriber does what the protocol says when a publication is delivered to it: the
    publication counts as run exactly if its handler runs a function, the one under its name on
    the arguments that were serialized, and nobody else runs anything.
   */
  lemma DeliverFollowsProtocol(c: Broadcast.Config, s: Broadcast.State, n: Broadcast.Node, index: nat, machine: Order,
                               caller: Order, rpcs: Bindings, args: seq<Value>)
    requires Broadcast.Enabled(c, s, Broadcast.Deliver(n, index)) && rpcs.Keys == c.bound[n]
    requires s.published[index].args == EncodeAll(caller, args)
    requires s.published[index].name in rpcs ==> HaveTypes(args, rpcs[s.published[index].name])
    ensures var p, t := s.published[index], Broadcast.Apply(c, s, Broadcast.Deliver(n, index));
            var run := Executions(machine, rpcs, Envelope(caller, p).0, Envelope(caller, p).1);
            && run.Some? && (run.value == [] || run.value == [Execution(p.name, args)])
            && n in t.executed && t.executed[n] == s.executed[n] + (if run.value == [] then [] else [index])
            && t.executed - {n} == s.executed - {n}
  {
    hide Executions, EncodeAll, HaveTypes;
    var p := s.published[index];
    PublicationRunsCall(machine, caller, rpcs, p.name, args);
  }

  /** A publication of this call, whose arguments some machine serialized, runs the function on them. */
  ghost predicate RunsCall(machine: Order, rpcs: Bindings, p: Broadcast.Publication, call: Broadcast.Call) {
    call.name in rpcs &&
    forall caller: Order, args: seq<Value> ::
      call.args == EncodeAll(caller, args) && HaveTypes(args, rpcs[call.name]) ==>
        Executions(machine, rpcs, Envelope(caller, p).0, Envelope(caller, p).1) == Some([Execution(call.name, args)])
  }

  /**
    In every run, what a node runs at any point is the function bound there under the name of
    some call, with the very arguments that call was made with, if they fit its parameters.
   */
  lemma NodesRunTheCalls(c: Broadcast.Config, t: Broadcast.State, n: Broadcast.Node, k: nat, machine: Order,
                         rpcs: Bindings)
    requires c.Valid() && Broadcast.Reachable(c, t) && n in c.nodes && n in t.executed && k < |t.executed[n]|
    requires rpcs.Keys == c.bound[n]
    ensures var index := t.executed[n][k];
            && index < |t.published| && t.published[index].id < |t.calls|
            && RunsCall(machine, rpcs, t.published[index], t.calls[t.published[index].id])
  {
    hide Executions, EncodeAll, HaveTypes, Broadcast.Reachable;
    Broadcast.NodesRunTheLog(c, t, n, k);
    var p := t.published[t.executed[n][k]];
    var call := t.calls[p.id];
    forall caller: Order, args | call.args == EncodeAll(caller, args) && HaveTypes(args, rpcs[call.name])
      ensures Executions(machine, rpcs, Envelope(caller, p).0, Envelope(caller, p).1)
              == Some([Execution(call.name, args)])
    {
      PublicationRunsCall(machine, caller, rpcs, call.name, args);
    }
  }
}
