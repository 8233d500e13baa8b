/**
  `RpcAsyncBroadcast` as an object: the communicator instances that `Start`, `Stop` and a
  timed-out `CallFunc` create and destroy, and the handlers that its threads call.
 */
module BroadcastNode {
  import opened Common
  import opened Communicators
  import opened RpcBasic
  import opened CallMessages
  import Messages = BroadcastMessages
  import Serializer

  datatype Role = NoRole | Server | Client

  /** Which of the sockets can be set up, and whether the timeouts are accepted. */
  datatype Network = Network(publisher: bool, responder: bool, subscriber: bool, requester: bool,
                             subscriberTimeout: bool, requesterTimeout: bool)

  class RpcAsyncBroadcast {
    const comm: Communicator
    /** The byte order of the machine. */
    const machine: Serializer.Order
    var role: Role
    var addrReqRep: Bytes
    var addrPubSub: Bytes
    var requester: Instance
    var publisher: Instance
    var subscriber: Instance
    var responder: Instance
    var receiveTimeoutCounter: nat
    var rpcs: Messages.Bindings

    constructor (comm: Communicator, machine: Serializer.Order)
      requires comm.Valid()
      ensures Valid() && this.comm == comm && this.machine == machine
      ensures role == NoRole && receiveTimeoutCounter == 0 && rpcs == map[]
    {
      rpcs := map[];
      this.comm, this.machine := comm, machine;
      role, addrReqRep, addrPubSub := NoRole, [], [];
      requester, publisher, subscriber, responder := 0, 0, 0, 0;
      receiveTimeoutCounter := 0;
    }

    /** The instances held. */
    ghost function Handles(): set<Instance>
      reads this
    {
      {requester, publisher, subscriber, responder} - {0}
    }

    /**
      Each handle is null or an instance of its kind, threads run, a stopped node holds nothing,
      and a client holds nothing of a server.
     */
    ghost predicate Valid()
      reads this, comm
    {
      comm.Valid() && ValidIn(comm.live)
    }

    ghost predicate ValidIn(live: map<Instance, Kind>)
      reads this
    {
      && Holds(live, requester, Requester) && Holds(live, publisher, Publisher)
      && Holds(live, subscriber, Subscriber(true)) && Holds(live, responder, Responder(true))
      && (role == NoRole ==> HoldsNothing() && addrReqRep == addrPubSub == [])
      && (role == Client ==> publisher == responder == 0)
      && (role != NoRole ==> addrReqRep != [] && addrPubSub != [])
    }

    ghost predicate HoldsNothing()
      reads this
      ensures HoldsNothing() ==> Handles() == {}
    {
      requester == publisher == subscriber == responder == 0
    }

    /** The server's part of `Start`. */
    method StartServer(net: Network) returns (success: bool)
      requires comm.Valid() && HoldsNothing()
      modifies this`publisher, this`responder, comm
      ensures comm.Valid() && OthersKept(old(comm.live), old(Handles()), comm.live, Handles())
      ensures Holds(comm.live, publisher, Publisher) && Holds(comm.live, responder, Responder(true))
      ensures (publisher != 0 <==> net.publisher) && (responder != 0 <==> net.responder)
      ensures success == (net.publisher && net.responder)
    {
      success := true;
      publisher := comm.Create(Publisher, net.publisher);
      if publisher == 0 {
        success := false;
      }
      responder := comm.Create(Responder(false), net.responder);
      if responder == 0 {
        success := false;
      } else {
        var started := comm.StartThread(responder);
        if !started {
          success := false;
        }
      }
    }

    method StartSubscriber(net: Network) returns (success: bool)
      requires comm.Valid() && subscriber == 0
      modifies this`subscriber, comm
      ensures comm.Valid() && OthersKept(old(comm.live), {}, comm.live, {subscriber} - {0})
      ensures Holds(comm.live, subscriber, Subscriber(true)) && (subscriber != 0 <==> net.subscriber)
      ensures success == (net.subscriber && net.subscriberTimeout)
    {
      success := true;
      subscriber := comm.Create(Subscriber(false), net.subscriber);
      if subscriber == 0 {
        success := false;
      } else {
        if !net.subscriberTimeout {
          success := false;
        }
        var started := comm.StartThread(subscriber);
        if !started {
          success := false;
        }
      }
    }

    method StartRequester(net: Network) returns (success: bool)
      requires comm.Valid() && requester == 0
      modifies this`requester, comm
      ensures comm.Valid() && OthersKept(old(comm.live), {}, comm.live, {requester} - {0})
      ensures Holds(comm.live, requester, Requester) && (requester != 0 <==> net.requester)
      ensures success == (net.requester && net.requesterTimeout)
    {
      success := true;
      requester := comm.Create(Requester, net.requester);
      if requester == 0 {
        success := false;
      } else {
        if !net.requesterTimeout {
          success := false;
        }
      }
    }

    /** The client's part of `Start`, which a server goes through as well. */
    method StartClient(net: Network) returns (success: bool)
      requires Valid() && role != NoRole && requester == subscriber == 0
      modifies this`requester, this`subscriber, comm
      ensures Valid() && OthersKept(old(comm.live), old(Handles()), comm.live, Handles())
      ensures (subscriber != 0 <==> net.subscriber) && (requester != 0 <==> net.requester)
      ensures success == (net.subscriber && net.subscriberTimeout && net.requester && net.requesterTimeout)
    {
      hide Communicator.Valid;
      success := StartSubscriber(net);
      var connected := StartRequester(net);
      success := success && connected;
    }

    /** A failure of one part leaves the others running; the node then has its role all the same. */
    method Start(node: Role, ip: Bytes, callfunc: int, broadcast: int, net: Network) returns (success: bool)
      requires Valid()
      modifies this, comm
      ensures Valid() && OthersKept(old(comm.live), old(Handles()), comm.live, Handles())
      ensures rpcs == old(rpcs)
      ensures old(role) != NoRole || node == NoRole ==>
                && !success && role == old(role) && comm.live == old(comm.live)
                && addrReqRep == old(addrReqRep) && addrPubSub == old(addrPubSub)
                && requester == old(requester) && publisher == old(publisher)
                && subscriber == old(subscriber) && responder == old(responder)
                && receiveTimeoutCounter == old(receiveTimeoutCounter)
      ensures old(role) == NoRole && node != NoRole ==>
                && role == node && receiveTimeoutCounter == 0
                && addrReqRep == Address(ip, callfunc) && addrPubSub == Address(ip, broadcast)
                && (requester != 0 <==> net.requester) && (subscriber != 0 <==> net.subscriber)
                && (publisher != 0 <==> node == Server && net.publisher)
                && (responder != 0 <==> node == Server && net.responder)
                && success == (net.subscriber && net.subscriberTimeout && net.requester && net.requesterTimeout
                               && (node == Server ==> net.publisher && net.responder))
    {
      if role != NoRole {
        return false;
      }
      if node == NoRole {
        return false;
      }
      receiveTimeoutCounter := 0;
      role := node;
      addrReqRep := Address(ip, callfunc);
      addrPubSub := Address(ip, broadcast);
      success := true;
      if node == Server {
        success := StartServer(net);
      }
      var client := StartClient(net);
      success := success && client;
    }

    /** Ends the thread of a handle, if there is one. */
    method End(inst: Instance) returns (success: bool)
      requires comm.Valid()
      requires inst != 0 ==> inst in comm.live && (comm.live[inst].Responder? || comm.live[inst].Subscriber?)
      modifies comm`live
      ensures comm.Valid() && success == (inst != 0 ==> old(comm.live)[inst].running)
      ensures comm.live.Keys == old(comm.live).Keys
      ensures forall i :: i in comm.live && i != inst ==> comm.live[i] == old(comm.live)[i]
    {
      success := true;
      if inst != 0 {
        success := comm.EndThread(inst);
      }
    }

    /** Destroys the instance, if there is one. */
    method Discard(inst: Instance)
      requires comm.Valid()
      modifies comm`live
      ensures comm.Valid() && comm.live == old(comm.live) - {inst}
    {
      if inst != 0 {
        var _ := comm.DestroyInstance(inst);
      }
    }

    method EndThreads() returns (success: bool)
      requires Valid()
      modifies comm`live
      ensures comm.Valid() && success
      ensures comm.live.Keys == old(comm.live).Keys
      ensures forall i :: i in comm.live && i !in Handles() ==> comm.live[i] == old(comm.live)[i]
    {
      var ended := End(responder);
      success := End(subscriber);
      success := success && ended;
    }

    method DiscardAll()
      requires comm.Valid()
      modifies this`responder, this`requester, this`publisher, this`subscriber, comm`live
      ensures comm.Valid() && comm.live == old(comm.live) - old(Handles()) && HoldsNothing()
    {
      ghost var before, held := comm.live, Handles();
      Discard(responder);
      Discard(requester);
      Discard(publisher);
      Discard(subscriber);
      assert comm.live.Keys == before.Keys - held;
      responder, requester, publisher, subscriber := 0, 0, 0, 0;
    }

    /** Whatever has been started is gone afterwards; only a node that was never started is refused. */
    method Stop() returns (success: bool)
      requires Valid()
      modifies this, comm`live
      ensures Valid() && comm.live == old(comm.live) - old(Handles())
      ensures role == NoRole && HoldsNothing() && addrReqRep == addrPubSub == []
      ensures success <==> old(role) != NoRole
      ensures rpcs == old(rpcs) && receiveTimeoutCounter == old(receiveTimeoutCounter)
    {
      hide Communicator.Valid;
      if role == NoRole {
        assert comm.live - {} == comm.live;
        return false;
      }
      success := EndThreads();
      assert comm.live - Handles() == old(comm.live) - Handles();
      DiscardAll();
      role := NoRole;
      addrReqRep := [];
      addrPubSub := [];
    }

    /**
      `CallFunc` from the point where the requester has a reply, or has waited too long for one;
      `None` is an exception from a malformed reply.  After a timeout the requester is replaced;
      that a new one can be created is assumed.
     */
    method CallFunc(name: Name, respond: Option<Bytes>) returns (e: Option<CallError>)
      requires Valid() && requester != 0
      modifies this`requester, comm
      ensures Valid() && OthersKept(old(comm.live), old(Handles()), comm.live, Handles())
      ensures e == if respond.None? then Some(NetworkTimeout) else Messages.Understand(machine, name, respond.value)
      ensures respond.Some? ==> requester == old(requester) && comm.live == old(comm.live)
      ensures respond.None? ==>
                && requester != 0 && requester !in old(comm.live)
                && comm.live == (old(comm.live) - {old(requester)})[requester := Requester]
    {
      if respond.None? {
        var _ := comm.DestroyInstance(requester);
        requester := 0;
        requester := comm.Create(Requester, true);
        return Some(NetworkTimeout);
      }
      var first := ReadName(machine, respond.value);
      if first.None? || first.value.rest == [] {
        return None;
      }
      var Opened(_, retFuncName, rest) := first.value;
      if retFuncName != name {
        return Some(FunctionNameMismatch);
      }
      if rest[0] == SUCCESS_CODE {
        return Some(Success);
      }
      return Some(FunctionNotFound);
    }

    // ----- What the threads call

    method BindFunc(name: Name, params: seq<Serializer.Type>)
      requires Valid()
      modifies this`rpcs
      ensures Valid() && rpcs == old(rpcs)[name := params]
    {
      rpcs := rpcs[name := params];
    }

    /** The responder's handler: a request under a bound name is sent on to all subscribers as it is. */
    method ResponseProcess(request: Bytes) returns (published: seq<(Name, Bytes)>, respond: Option<Bytes>)
      requires Valid()
      requires ReadName(machine, request).Some? && ReadName(machine, request).value.name in rpcs ==> publisher != 0
      ensures respond.Some? <==> Messages.Answer(machine, rpcs.Keys, request).Some?
      ensures respond.Some? ==>
                Messages.Answer(machine, rpcs.Keys, request).value == Messages.Response(published, respond.value)
      ensures respond.None? ==> published == []
    {
      published := [];
      var header := ReadName(machine, request);
      if header.None? {
        return published, None;
      }
      var funcName := header.value.name;
      if funcName in rpcs {
        published := published + [(funcName, request)];
        return published, Some(Messages.EncodeAnswer(machine, funcName, Done));
      }
      return published, Some(Messages.EncodeAnswer(machine, funcName, NotFound));
    }

    /** The subscriber's handler; `None` is an exception from malformed arguments. */
    method SubscribeProcess(envelope: Name, content: Bytes) returns (ran: Option<seq<Messages.Execution>>)
      requires Valid()
      ensures ran == Messages.Executions(machine, rpcs, envelope, content)
    {
      if envelope !in rpcs {
        return Some([]);
      }
      var header := ReadName(machine, content);
      if header.None? {
        return None;
      }
      var funcArgs := Serializer.DecodeFields(header.value.order, rpcs[envelope], header.value.rest);
      if funcArgs.None? {
        return None;
      }
      return Some([Messages.Execution(envelope, funcArgs.value.0)]);
    }

    /** The subscriber's report after each wait: timeouts in a row are counted. */
    method ReceiveProcess(receivedSuccess: bool)
      requires Valid()
      modifies this`receiveTimeoutCounter
      ensures Valid() && receiveTimeoutCounter == if receivedSuccess then 0 else old(receiveTimeoutCounter) + 1
    {
      if receivedSuccess {
        receiveTimeoutCounter := 0;
      } else {
        receiveTimeoutCounter := receiveTimeoutCounter + 1;
      }
    }
  }

  // ----- Several nodes in one process

  datatype Operation =
    | DoStart(node: Role, ip: Bytes, callfunc: int, broadcast: int, net: Network)
    | DoStop
    | DoCall(name: Name, respond: Option<Bytes>)

  /** The instances that exist are exactly those the nodes hold, and no two nodes hold the same one. */
  ghost predicate Accounted(comm: Communicator, nodes: seq<RpcAsyncBroadcast>)
    reads comm, nodes
  {
    && comm.Valid()
    && (forall i :: 0 <= i < |nodes| ==> nodes[i].comm == comm && nodes[i].Valid())
    && (forall i, j :: 0 <= i < |nodes| && 0 <= j < |nodes| && i != j ==>
          nodes[i] != nodes[j] && nodes[i].Handles() !! nodes[j].Handles())
    && (forall h :: h in comm.live ==> exists i :: 0 <= i < |nodes| && h in nodes[i].Handles())
  }

  /** What one node does changes nothing about another. */
  lemma OtherNodeKept(node: RpcAsyncBroadcast, before: map<Instance, Kind>, held: set<Instance>,
                      after: map<Instance, Kind>, holds: set<Instance>)
    requires node.ValidIn(before) && OthersKept(before, held, after, holds) && node.Handles() !! held
    ensures node.ValidIn(after) && node.Handles() !! holds
  {
    assert forall h :: h in node.Handles() ==> h in before;
  }

  method Act(node: RpcAsyncBroadcast, operation: Operation)
    requires node.Valid()
    modifies node, node.comm
    ensures node.Valid() && OthersKept(old(node.comm.live), old(node.Handles()), node.comm.live, node.Handles())
  {
    match operation {
      case DoStart(role, ip, callfunc, broadcast, net) =>
        var _ := node.Start(role, ip, callfunc, broadcast, net);
      case DoStop =>
        var _ := node.Stop();
      case DoCall(name, respond) =>
        if node.requester != 0 {
          var _ := node.CallFunc(name, respond);
        }
    }
  }

  method ActAmong(comm: Communicator, nodes: seq<RpcAsyncBroadcast>, k: nat, operation: Operation)
    requires Accounted(comm, nodes) && k < |nodes|
    modifies comm, nodes[k]
    ensures Accounted(comm, nodes)
  {
    hide RpcAsyncBroadcast.ValidIn, Communicator.Valid, RpcAsyncBroadcast.Handles;
    var node := nodes[k];
    ghost var before := comm.live;
    ghost var held := seq(|nodes|, i requires 0 <= i < |nodes| reads nodes => nodes[i].Handles());
    Act(node, operation);
    forall i | 0 <= i < |nodes| && i != k
      ensures nodes[i].ValidIn(comm.live) && nodes[i].Handles() == held[i] && nodes[i].Handles() !! node.Handles()
    {
      OtherNodeKept(nodes[i], before, held[k], comm.live, node.Handles());
    }
    forall h | h in comm.live ensures exists i :: 0 <= i < |nodes| && h in nodes[i].Handles() {
      if h !in node.Handles() {
        var i :| 0 <= i < |nodes| && h in held[i];
        assert h in nodes[i].Handles();
      }
    }
  }

  /** Any number of nodes sharing one communicator, doing anything in any order. */
  method RunScript(comm: Communicator, nodes: seq<RpcAsyncBroadcast>, script: seq<(nat, Operation)>)
    requires Accounted(comm, nodes)
    requires forall s :: 0 <= s < |script| ==> script[s].0 < |nodes|
    modifies comm, nodes
    ensures Accounted(comm, nodes)
  {
    for s := 0 to |script|
      invariant Accounted(comm, nodes)
    {
      ActAmong(comm, nodes, script[s].0, script[s].1);
    }
  }
}
