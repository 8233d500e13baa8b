/**
  Request/response calls: `RpcProcessRequest` on the calling side and `RpcProcessResponse`
  on the side where the functions are bound.
 */
module RpcProcess {
  import opened Common
  import opened RpcBasic
  import opened Serializer
  import opened CallMessages
  import opened Communicators

  /** A bound function; without a result type it returns nothing. */
  datatype Function = Function(params: seq<Type>, result: Option<Type>, body: seq<Value> -> Value)

  // ----- What is on the wire

  /** A function that returns nothing replies with a single zero byte. */
  function EncodeReply(order: Order, name: Name, code: Byte, value: Value): Bytes {
    Message(order, name, [code] + Encode(order, value))
  }

  /** A whole reply read as one with a result of type `t`. */
  function ReadReply(machine: Order, t: Type, data: Bytes): Option<(Name, Byte, Value)> {
    match ReadName(machine, data)
    case None => None
    case Some(Opened(order, name, rest)) =>
      if rest == [] then None
      else
        match Decode(order, t, rest[1..])
        case None => None
        case Some((v, _)) => Some((name, rest[0], v))
  }

  // ----- The answering side

  /** What `ExecFunc` answers; `None` is an exception from reading a malformed request. */
  function Answer(machine: Order, rpcs: map<Name, Function>, request: Bytes): Option<Bytes> {
    match ReadName(machine, request)
    case None => None
    case Some(Opened(order, name, rest)) =>
      if name !in rpcs then Some(EncodeReply(machine, name, NOT_FOUND_CODE, U8(0)))
      else
        var f := rpcs[name];
        match DecodeFields(order, f.params, rest)
        case None => None
        case Some((args, _)) =>
          var value := f.body(args);
          Some(EncodeReply(machine, name, SUCCESS_CODE, if f.result.None? then U8(0) else value))
  }

  class RpcProcessResponse {
    const comm: Communicator
    /** The byte order of the machine. */
    const machine: Order
    var rpcs: map<Name, Function>
    var responder: Instance

    constructor (comm: Communicator, machine: Order)
      requires comm.Valid()
      ensures Valid() && this.comm == comm && this.machine == machine && rpcs == map[] && responder == 0
    {
      this.comm, this.machine := comm, machine;
      rpcs, responder := map[], 0;
    }

    ghost predicate Valid()
      reads this, comm
    {
      comm.Valid() && Holds(comm.live, responder, Responder(true))
    }

    ghost function Handles(): set<Instance>
      reads this
    {
      {responder} - {0}
    }

    /** A responder that could be created is always started too. */
    method StartProcess(works: bool) returns (success: bool)
      requires Valid()
      modifies this`responder, comm
      ensures Valid() && OthersKept(old(comm.live), old(Handles()), comm.live, Handles())
      ensures success == (old(responder) == 0 && works)
      ensures responder == if success then old(comm.next) else old(responder)
    {
      if responder != 0 {
        return false;
      }
      responder := comm.Create(Responder(false), works);
      if responder == 0 {
        return false;
      }
      var started := comm.StartThread(responder);
      if !started {
        return false;
      }
      return true;
    }

    /** Undoes a successful start, and is refused only without one. */
    method StopProcess() returns (success: bool)
      requires Valid()
      modifies this`responder, comm`live
      ensures Valid() && responder == 0 && success == (old(responder) != 0)
      ensures comm.live == old(comm.live) - old(Handles())
    {
      if responder == 0 {
        assert comm.live == comm.live - {};
        return false;
      }
      ghost var before := comm.live;
      var ended := comm.EndThread(responder);
      if !ended {
        return false;
      }
      var _ := comm.DestroyInstance(responder);
      assert comm.live == before - {responder};
      responder := 0;
      return true;
    }

    method BindFunc(name: Name, func: Function)
      requires Valid()
      modifies this`rpcs
      ensures Valid() && rpcs == old(rpcs)[name := func]
    {
      rpcs := rpcs[name := func];
    }

    method ExecFunc(request: Bytes) returns (respond: Option<Bytes>)
      ensures respond == Answer(machine, rpcs, request)
    {
      var header := ReadName(machine, request);
      if header.None? {
        return None;
      }
      var funcName := header.value.name;
      if funcName in rpcs {
        respond := CallProxyImpl(rpcs[funcName], request);
      } else {
        respond := Some(EncodeReply(machine, funcName, NOT_FOUND_CODE, U8(0)));
      }
    }

    /** Reads the name again, and the arguments after it. */
    method CallProxyImpl(func: Function, request: Bytes) returns (respond: Option<Bytes>)
      ensures respond ==
              match ReadName(machine, request)
              case None => None
              case Some(Opened(order, name, rest)) =>
                match DecodeFields(order, func.params, rest)
                case None => None
                case Some((args, _)) =>
                  Some(EncodeReply(machine, name, SUCCESS_CODE, if func.result.None? then U8(0) else func.body(args)))
    {
      var header := ReadName(machine, request);
      if header.None? {
        return None;
      }
      var Opened(order, funcName, rest) := header.value;
      var funcArgs := DecodeFields(order, func.params, rest);
      if funcArgs.None? {
        return None;
      }
      var retv := func.body(funcArgs.value.0);
      if func.result.None? {
        retv := U8(0);
      }
      return Some(EncodeReply(machine, funcName, SUCCESS_CODE, retv));
    }
  }

  // ----- The calling side

  /** What `CallFunc` returns; `Throws` is an exception from reading the reply. */
  datatype CallReturn = Returned(error: CallError, value: Option<Value>) | Throws

  /** What a reply means to the caller of `name`. */
  function Understand(machine: Order, name: Name, result: Option<Type>, respond: Bytes): CallReturn {
    match ReadReply(machine, TU8, respond)
    case None => Throws
    case Some((retName, code, _)) =>
      if retName != name then Returned(FunctionNameMismatch, None)
      else if code == NOT_FOUND_CODE then Returned(FunctionNotFound, None)
      else if result.None? then Returned(Success, None)
      else
        match ReadReply(machine, result.value, respond)
        case None => Throws
        case Some((_, _, v)) => Returned(Success, Some(v))
  }

  class RpcProcessRequest {
    const comm: Communicator
    /** The byte order of the machine. */
    const machine: Order
    var requester: Instance
    var serverAddress: Bytes
    var autoReconnect: bool

    constructor (comm: Communicator, machine: Order)
      requires comm.Valid()
      ensures Valid() && this.comm == comm && this.machine == machine && requester == 0 && autoReconnect
    {
      this.comm, this.machine := comm, machine;
      requester, serverAddress, autoReconnect := 0, [], true;
    }

    ghost predicate Valid()
      reads this, comm
    {
      comm.Valid() && Holds(comm.live, requester, Requester) && (requester != 0 ==> serverAddress != [])
    }

    ghost function Handles(): set<Instance>
      reads this
    {
      {requester} - {0}
    }

    /** The address is kept only of a connection that was made; a rejected timeout undoes it. */
    method ConnectNetwork(ip: Bytes, port: int, works: bool, timeoutAccepted: bool) returns (success: bool)
      requires Valid()
      modifies this, comm
      ensures Valid() && OthersKept(old(comm.live), old(Handles()), comm.live, Handles())
      ensures success == (old(requester) == 0 && works && timeoutAccepted)
      ensures success ==> requester != 0 && serverAddress == Address(ip, port)
      ensures !success ==>
                requester == old(requester) && serverAddress == old(serverAddress) && comm.live == old(comm.live)
      ensures autoReconnect == old(autoReconnect)
    {
      if requester != 0 {
        return false;
      }
      var addr := Address(ip, port);
      requester := comm.Create(Requester, works);
      if requester == 0 {
        return false;
      }
      if !timeoutAccepted {
        var _ := comm.DestroyInstance(requester);
        requester := 0;
        assert comm.live == old(comm.live);
        return false;
      }
      serverAddress := addr;
      return true;
    }

    method DisconnectNetwork() returns (success: bool)
      requires Valid()
      modifies this`requester, comm`live
      ensures Valid() && requester == 0 && success == (old(requester) != 0)
      ensures comm.live == old(comm.live) - old(Handles())
    {
      if requester == 0 {
        assert comm.live == comm.live - {};
        return false;
      }
      ghost var before := comm.live;
      var _ := comm.DestroyInstance(requester);
      assert comm.live == before - {requester};
      requester := 0;
      return true;
    }

    method SetAutoReconnectNetwork(enable: bool)
      requires Valid()
      modifies this`autoReconnect
      ensures Valid() && autoReconnect == enable
    {
      autoReconnect := enable;
    }

    /**
      `CallFunc` once the requester has a reply, or has waited too long for one.  After a timeout
      the requester is replaced if that is wanted; that a new one can be created is assumed.
     */
    method CallFunc(name: Name, result: Option<Type>, respond: Option<Bytes>) returns (ret: CallReturn)
      requires Valid() && requester != 0
      modifies this`requester, comm
      ensures Valid() && OthersKept(old(comm.live), old(Handles()), comm.live, Handles())
      ensures ret == if respond.None? then Returned(NetworkTimeout, None)
                     else Understand(machine, name, result, respond.value)
      ensures requester == if respond.None? && autoReconnect then old(comm.next) else old(requester)
      ensures comm.live.Keys == old(comm.live).Keys - old(Handles()) + Handles()
    {
      if respond.None? {
        if autoReconnect {
          var _ := comm.DestroyInstance(requester);
          requester := 0;
          requester := comm.Create(Requester, true);
        }
        return Returned(NetworkTimeout, None);
      }
      var first := ReadReply(machine, TU8, respond.value);
      if first.None? {
        return Throws;
      }
      var (retFuncName, code, _) := first.value;
      if retFuncName != name {
        return Returned(FunctionNameMismatch, None);
      }
      if code == NOT_FOUND_CODE {
        return Returned(FunctionNotFound, None);
      }
      if result.None? {
        return Returned(Success, None);
      }
      var second := ReadReply(machine, result.value, respond.value);
      if second.None? {
        return Throws;
      }
      return Returned(Success, Some(second.value.2));
    }
  }

  // ----- A remote call is a local call

  /** The first look at a reply sees the right name and code exactly if the result takes up at least one byte. */
  lemma FirstStage(machine: Order, order: Order, name: Name, code: Byte, t: Type, v: Value)
    requires HasType(v, t)
    ensures var first := ReadReply(machine, TU8, EncodeReply(order, name, code, v));
            if Sizeless(t) then first.None?
            else Encode(order, v) != [] && first == Some((name, code, U8(Encode(order, v)[0])))
  {
    var rest := [code] + Encode(order, v);
    NameRoundTrip(machine, order, name, rest);
    SizelessIsEmpty(order, t, v);
    assert rest[1..] == Encode(order, v);
  }

  lemma SecondStage(machine: Order, order: Order, name: Name, code: Byte, t: Type, v: Value)
    requires HasType(v, t)
    ensures ReadReply(machine, t, EncodeReply(order, name, code, v)) == Some((name, code, v))
  {
    hide Encode, Decode, ReadName, Message;
    var rest := [code] + Encode(order, v);
    NameRoundTrip(machine, order, name, rest);
    assert rest[1..] == Encode(order, v) + [];
    RoundTrip(order, t, v, []);
  }

  /** The value a function returns has the type it declares. */
  ghost predicate WellTyped(f: Function, args: seq<Value>) {
    HaveTypes(args, f.params) && (f.result.Some? ==> HasType(f.body(args), f.result.value))
  }

  lemma AnswerToCall(client: Order, server: Order, rpcs: map<Name, Function>, name: Name, args: seq<Value>)
    requires name in rpcs ==> WellTyped(rpcs[name], args)
    ensures Answer(server, rpcs, EncodeRequest(client, name, args)) ==
            Some(if name !in rpcs then EncodeReply(server, name, NOT_FOUND_CODE, U8(0))
                 else if rpcs[name].result.None? then EncodeReply(server, name, SUCCESS_CODE, U8(0))
                 else EncodeReply(server, name, SUCCESS_CODE, rpcs[name].body(args)))
  {
    NameRoundTrip(server, client, name, EncodeAll(client, args));
    if name in rpcs {
      ArgumentsRoundTrip(server, client, name, rpcs[name].params, args);
    }
  }

  /**
    A remote call, between machines of any byte order, returns what the bound function returns
    locally, for every result type that takes up at least one byte; the other result types make
    it throw.  Without a bound function it says so.
   */
  lemma RemoteIsLocal(client: Order, server: Order, rpcs: map<Name, Function>, name: Name, args: seq<Value>,
                      result: Option<Type>)
    requires name in rpcs ==> WellTyped(rpcs[name], args) && rpcs[name].result == result
    ensures var answer := Answer(server, rpcs, EncodeRequest(client, name, args));
            answer.Some? &&
            Understand(client, name, result, answer.value) ==
            if name !in rpcs then Returned(FunctionNotFound, None)
            else if result.None? then Returned(Success, None)
            else if Sizeless(result.value) then Throws
            else Returned(Success, Some(rpcs[name].body(args)))
  {
    AnswerToCall(client, server, rpcs, name, args);
    hide Answer, EncodeRequest, EncodeReply, ReadReply, Encode;
    if name !in rpcs {
      FirstStage(client, server, name, NOT_FOUND_CODE, TU8, U8(0));
    } else if result.None? {
      FirstStage(client, server, name, SUCCESS_CODE, TU8, U8(0));
    } else {
      FirstStage(client, server, name, SUCCESS_CODE, result.value, rpcs[name].body(args));
      SecondStage(client, server, name, SUCCESS_CODE, result.value, rpcs[name].body(args));
    }
  }

  /**
    A reply to a call of another function is recognised, unless its value takes up no bytes:
    then reading it throws.
   */
  lemma OtherReplyIsMismatch(machine: Order, order: Order, name: Name, other: Name, result: Option<Type>,
                             code: Byte, t: Type, v: Value)
    requires HasType(v, t) && other != name
    ensures Understand(machine, name, result, EncodeReply(order, other, code, v)) ==
            if Sizeless(t) then Throws else Returned(FunctionNameMismatch, None)
  {
    hide EncodeReply, ReadReply, Encode;
    FirstStage(machine, order, other, code, t, v);
  }
}
