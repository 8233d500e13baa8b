/**
  The broadcast protocol of `RpcAsyncBroadcast` as a system of steps.  A caller sends a request
  to the server; the server publishes it to all nodes, or not, and replies; a caller that
  waits too long gives up and replaces its requester.  Every node runs what its subscriber
  sees.  Messages may be delayed or lost at any time.

  What is assumed of the sockets: a reply reaches only the requester that sent the request, a
  destroyed requester receives nothing, and a subscriber sees publications in order,
  possibly with gaps.
 */
module Broadcast {
  import opened Common
  import opened RpcBasic

  type Node = nat
  /** The serialized arguments of a call. */
  type Arguments = Bytes
  /** A requester instance; a new one is never an old one. */
  type Instance = nat
  /** Calls are numbered as they are made.  The number is not part of any message. */
  type CallId = nat

  datatype Call = Call(node: Node, instance: Instance, name: Name, args: Arguments)

  datatype Request = Request(id: CallId, instance: Instance, name: Name, args: Arguments)

  datatype Reply = Reply(id: CallId, instance: Instance, name: Name, code: ReturnCode)

  datatype Publication = Publication(id: CallId, name: Name, args: Arguments)

  /** Who takes part, which of them is the server, and the function names bound at each. */
  datatype Config = Config(nodes: set<Node>, server: Node, bound: map<Node, set<Name>>) {
    ghost predicate Valid() {
      server in nodes && nodes == bound.Keys
    }
  }

  datatype State = State(
    calls: seq<Call>,
    outcomes: map<CallId, CallError>,
    requesters: map<Node, Instance>,
    waiting: map<Node, CallId>,
    nextInstance: Instance,
    requests: set<Request>,
    replies: set<Reply>,
    published: seq<Publication>,
    seen: map<Node, nat>,
    executed: map<Node, seq<nat>>)

  datatype Step =
    | Invoke(node: Node, name: Name, args: Arguments)
    | Respond(request: Request)
    | Receive(node: Node, reply: Reply)
    | GiveUp(node: Node)
    | LoseRequest(request: Request)
    | LoseReply(reply: Reply)
    | Deliver(node: Node, index: nat)

  // ----- What the handlers compute

  /** `ResponseProcess`: whether the request is published, and the reply. */
  function ResponseProcess(bound: set<Name>, r: Request): (seq<Publication>, Reply) {
    if r.name in bound then ([Publication(r.id, r.name, r.args)], Reply(r.id, r.instance, r.name, Done))
    else ([], Reply(r.id, r.instance, r.name, NotFound))
  }

  /** The end of `CallFunc`, once a reply has arrived. */
  function CallResult(name: Name, r: Reply): CallError {
    if r.name != name then FunctionNameMismatch
    else match r.code
      case Done => Success
      case NotFound => FunctionNotFound
  }

  // ----- The system

  /** All nodes started, nothing called. */
  ghost predicate Init(c: Config, s: State) {
    && s.calls == [] && s.outcomes == map[] && s.waiting == map[]
    && s.requests == {} && s.replies == {} && s.published == []
    && s.requesters.Keys == c.nodes
    && s.seen == (map n | n in c.nodes :: 0) && s.executed == (map n | n in c.nodes :: [])
    && (forall n :: n in s.requesters ==> s.requesters[n] < s.nextInstance)
    && (forall m, n :: m in s.requesters && n in s.requesters && s.requesters[m] == s.requesters[n] ==> m == n)
  }

  ghost predicate Enabled(c: Config, s: State, step: Step) {
    match step
    case Invoke(node, _, _) => node in s.requesters && node !in s.waiting
    case Respond(request) => request in s.requests && c.server in c.bound
    case Receive(node, reply) =>
      reply in s.replies && node in s.requesters && s.requesters[node] == reply.instance
      && node in s.waiting && s.waiting[node] < |s.calls|
    case GiveUp(node) => node in s.waiting
    case LoseRequest(request) => request in s.requests
    case LoseReply(reply) => reply in s.replies
    case Deliver(node, index) =>
      node in s.seen && node in s.executed && node in c.bound && s.seen[node] <= index < |s.published|
  }

  ghost function Apply(c: Config, s: State, step: Step): State
    requires Enabled(c, s, step)
  {
    match step
    case Invoke(node, name, args) =>
      var id, instance := |s.calls|, s.requesters[node];
      s.(calls := s.calls + [Call(node, instance, name, args)],
         waiting := s.waiting[node := id],
         requests := s.requests + {Request(id, instance, name, args)})
    case Respond(request) =>
      var (publications, reply) := ResponseProcess(c.bound[c.server], request);
      s.(requests := s.requests - {request},
         replies := s.replies + {reply},
         published := s.published + publications)
    case Receive(node, reply) =>
      var id := s.waiting[node];
      s.(replies := s.replies - {reply},
         waiting := s.waiting - {node},
         outcomes := s.outcomes[id := CallResult(s.calls[id].name, reply)])
    case GiveUp(node) =>
      s.(waiting := s.waiting - {node},
         outcomes := s.outcomes[s.waiting[node] := NetworkTimeout],
         requesters := s.requesters[node := s.nextInstance],
         nextInstance := s.nextInstance + 1)
    case LoseRequest(request) => s.(requests := s.requests - {request})
    case LoseReply(reply) => s.(replies := s.replies - {reply})
    case Deliver(node, index) =>
      var runs := s.published[index].name in c.bound[node];
      s.(seen := s.seen[node := index + 1],
         executed := s.executed[node := s.executed[node] + if runs then [index] else []])
  }

  /** `t` is reached from `s` by `steps`, each of them possible when it is taken. */
  ghost predicate Runs(c: Config, s: State, steps: seq<Step>, t: State)
    decreases |steps|
  {
    if steps == [] then s == t
    else Enabled(c, s, steps[0]) && Runs(c, Apply(c, s, steps[0]), steps[1..], t)
  }

  // ----- What every step keeps

  /**
    Requesters are distinct; a call is finished exactly if its node no longer waits for it; a
    node makes one call at a time.
   */
  ghost predicate CallsOk(nodes: set<Node>, calls: seq<Call>, outcomes: map<CallId, CallError>,
                          requesters: map<Node, Instance>, waiting: map<Node, CallId>, next: Instance) {
    && requesters.Keys == nodes
    && waiting.Keys <= nodes
    && (forall n :: n in requesters ==> requesters[n] < next)
    && (forall m, n :: m in requesters && n in requesters && requesters[m] == requesters[n] ==> m == n)
    && (forall n :: n in waiting ==> waiting[n] < |calls|)
    && (forall n :: n in waiting ==> calls[waiting[n]].node == n && calls[waiting[n]].instance == requesters[n])
    && (forall id :: id in outcomes ==> id < |calls|)
    && (forall id :: 0 <= id < |calls| ==> calls[id].instance < next && calls[id].node in nodes)
    && (forall id :: 0 <= id < |calls| ==>
          (id in outcomes <==> !(calls[id].node in waiting && waiting[calls[id].node] == id)))
    && (forall a, b :: 0 <= a < b < |calls| && calls[a].node == calls[b].node ==> a in outcomes)
  }

  /** Messages carry what their calls say, and only bound names are published. */
  ghost predicate MessagesOk(calls: seq<Call>, requests: set<Request>, replies: set<Reply>,
                             published: seq<Publication>, bound: set<Name>) {
    && (forall r :: r in requests ==> r.id < |calls|)
    && (forall r :: r in requests ==>
          calls[r.id].instance == r.instance && calls[r.id].name == r.name && calls[r.id].args == r.args)
    && (forall r :: r in replies ==> r.id < |calls|)
    && (forall r :: r in replies ==> calls[r.id].instance == r.instance && calls[r.id].name == r.name)
    && (forall i :: 0 <= i < |published| ==> published[i].id < |calls|)
    && (forall i :: 0 <= i < |published| ==>
          calls[published[i].id].name == published[i].name && calls[published[i].id].args == published[i].args
          && published[i].name in bound)
  }

  ghost function Ids(published: seq<Publication>): set<CallId> {
    set i | 0 <= i < |published| :: published[i].id
  }

  /** A request is on its way, or has been answered, and a call is published at most once. */
  ghost predicate AnswersOk(requests: set<Request>, replies: set<Reply>, published: seq<Publication>) {
    && (forall r :: r in requests ==> r.id !in Ids(published))
    && (forall q, r :: q in requests && r in replies ==> q.id != r.id)
    && (forall q, r :: q in requests && r in requests && q.id == r.id ==> q == r)
    && (forall q, r :: q in replies && r in replies && q.id == r.id ==> q == r)
    && (forall r :: r in replies ==> (r.code == Done <==> r.id in Ids(published)))
    && (forall i, j :: 0 <= i < j < |published| ==> published[i].id != published[j].id)
  }

  /** A call's result says whether it was published, and a requester in use has no messages of finished calls. */
  ghost predicate OutcomesOk(calls: seq<Call>, outcomes: map<CallId, CallError>, requesters: map<Node, Instance>,
                             requests: set<Request>, replies: set<Reply>, ids: set<CallId>) {
    && (forall id :: id in outcomes ==> outcomes[id] != FunctionNameMismatch)
    && (forall id :: id in outcomes && outcomes[id] == Success ==> id in ids)
    && (forall id :: id in outcomes && outcomes[id] == FunctionNotFound ==> id !in ids)
    && (forall r :: r in requests && r.id in outcomes ==> outcomes[r.id] == NetworkTimeout)
    && (forall r, n :: r in requests && r.id in outcomes && n in requesters ==> r.instance != requesters[n])
    && (forall r, n :: r in replies && r.id in outcomes && n in requesters ==> r.instance != requesters[n])
  }

  /** A node has run publications in order, each at most once, and only those it has a function for. */
  ghost predicate ExecutionOk(bound: map<Node, set<Name>>, seen: map<Node, nat>, executed: map<Node, seq<nat>>,
                              published: seq<Publication>) {
    && seen.Keys == executed.Keys == bound.Keys
    && forall n :: n in bound ==> NodeExecutionOk(bound[n], seen[n], executed[n], published)
  }

  ghost predicate NodeExecutionOk(bound: set<Name>, seen: nat, executed: seq<nat>, published: seq<Publication>) {
    && seen <= |published|
    && (forall k :: 0 <= k < |executed| ==> executed[k] < seen && published[executed[k]].name in bound)
    && (forall j, k :: 0 <= j < k < |executed| ==> executed[j] < executed[k])
  }

  /** Two calls of one node are published out of order only if the earlier one was given up. */
  ghost predicate OrderOk(calls: seq<Call>, outcomes: map<CallId, CallError>, published: seq<Publication>) {
    forall i, j :: 0 <= i < j < |published| && published[j].id < published[i].id < |calls|
                   && calls[published[i].id].node == calls[published[j].id].node ==>
      published[j].id in outcomes && outcomes[published[j].id] == NetworkTimeout
  }

  /** A requester makes its calls one after another, belongs to one node, and is not used again after a timeout. */
  ghost predicate InstancesOk(calls: seq<Call>, outcomes: map<CallId, CallError>, requesters: map<Node, Instance>) {
    && (forall a, b :: 0 <= a < b < |calls| && calls[a].instance == calls[b].instance ==>
          a in outcomes && outcomes[a] != NetworkTimeout)
    && (forall id, n :: 0 <= id < |calls| && n in requesters && calls[id].instance == requesters[n] ==>
          calls[id].node == n && (id in outcomes ==> outcomes[id] != NetworkTimeout))
  }

  ghost predicate Inv(c: Config, s: State) {
    && CallsOk(c.nodes, s.calls, s.outcomes, s.requesters, s.waiting, s.nextInstance)
    && c.server in c.bound
    && MessagesOk(s.calls, s.requests, s.replies, s.published, c.bound[c.server])
    && AnswersOk(s.requests, s.replies, s.published)
    && OutcomesOk(s.calls, s.outcomes, s.requesters, s.requests, s.replies, Ids(s.published))
    && ExecutionOk(c.bound, s.seen, s.executed, s.published)
    && OrderOk(s.calls, s.outcomes, s.published)
    && InstancesOk(s.calls, s.outcomes, s.requesters)
  }

  lemma InitInv(c: Config, s: State)
    requires c.Valid() && Init(c, s)
    ensures Inv(c, s)
  {
  }

  // ----- Preservation, step by step

  lemma InvokeCalls(nodes: set<Node>, calls: seq<Call>, outcomes: map<CallId, CallError>,
                    requesters: map<Node, Instance>, waiting: map<Node, CallId>, next: Instance, call: Call)
    requires CallsOk(nodes, calls, outcomes, requesters, waiting, next)
    requires call.node in requesters && call.instance == requesters[call.node] && call.node !in waiting
    ensures CallsOk(nodes, calls + [call], outcomes, requesters, waiting[call.node := |calls|], next)
    ensures |calls| !in outcomes
  {
  }

  lemma InvokeMessages(calls: seq<Call>, call: Call, requests: set<Request>, replies: set<Reply>,
                       published: seq<Publication>, bound: set<Name>)
    requires MessagesOk(calls, requests, replies, published, bound)
    ensures MessagesOk(calls + [call], requests + {Request(|calls|, call.instance, call.name, call.args)}, replies,
                       published, bound)
    ensures |calls| !in Ids(published)
    ensures forall r :: r in requests ==> r.id != |calls|
    ensures forall r :: r in replies ==> r.id != |calls|
  {
  }

  lemma InvokeAnswers(requests: set<Request>, r: Request, replies: set<Reply>, published: seq<Publication>)
    requires AnswersOk(requests, replies, published)
    requires r.id !in Ids(published)
    requires forall q :: q in requests ==> q.id != r.id
    requires forall q :: q in replies ==> q.id != r.id
    ensures AnswersOk(requests + {r}, replies, published)
  {
  }

  lemma InvokeOrder(calls: seq<Call>, call: Call, outcomes: map<CallId, CallError>, published: seq<Publication>)
    requires OrderOk(calls, outcomes, published)
    requires forall i :: 0 <= i < |published| ==> published[i].id < |calls|
    ensures OrderOk(calls + [call], outcomes, published)
  {
  }

  lemma InvokeInstances(nodes: set<Node>, calls: seq<Call>, outcomes: map<CallId, CallError>,
                        requesters: map<Node, Instance>, waiting: map<Node, CallId>, next: Instance, call: Call)
    requires CallsOk(nodes, calls, outcomes, requesters, waiting, next) && InstancesOk(calls, outcomes, requesters)
    requires call.node in requesters && call.instance == requesters[call.node] && call.node !in waiting
    ensures InstancesOk(calls + [call], outcomes, requesters)
  {
  }

  lemma InvokeKeeps(c: Config, s: State, node: Node, name: Name, args: Arguments)
    requires c.Valid() && Inv(c, s) && Enabled(c, s, Invoke(node, name, args))
    ensures Inv(c, Apply(c, s, Invoke(node, name, args)))
  {
    hide CallsOk, AnswersOk, ExecutionOk, OrderOk, InstancesOk;
    var call := Call(node, s.requesters[node], name, args);
    var request := Request(|s.calls|, call.instance, name, args);
    InvokeCalls(c.nodes, s.calls, s.outcomes, s.requesters, s.waiting, s.nextInstance, call);
    InvokeMessages(s.calls, call, s.requests, s.replies, s.published, c.bound[c.server]);
    InvokeAnswers(s.requests, request, s.replies, s.published);
    InvokeOrder(s.calls, call, s.outcomes, s.published);
    InvokeInstances(c.nodes, s.calls, s.outcomes, s.requesters, s.waiting, s.nextInstance, call);
  }

  lemma RespondMessages(calls: seq<Call>, r: Request, requests: set<Request>, replies: set<Reply>,
                        published: seq<Publication>, bound: set<Name>)
    requires MessagesOk(calls, requests, replies, published, bound) && r in requests
    ensures var (publications, reply) := ResponseProcess(bound, r);
            MessagesOk(calls, requests - {r}, replies + {reply}, published + publications, bound)
  {
  }

  lemma IdsConcat(a: seq<Publication>, b: seq<Publication>)
    ensures Ids(a + b) == Ids(a) + Ids(b)
  {
    forall id | id in Ids(a) + Ids(b) ensures id in Ids(a + b) {
      if i :| 0 <= i < |a| && a[i].id == id {
        assert (a + b)[i].id == id;
      } else {
        var j :| 0 <= j < |b| && b[j].id == id;
        assert (a + b)[|a| + j].id == id;
      }
    }
  }

  lemma RespondAnswers(r: Request, requests: set<Request>, replies: set<Reply>, published: seq<Publication>,
                       bound: set<Name>)
    requires AnswersOk(requests, replies, published) && r in requests
    ensures var (publications, reply) := ResponseProcess(bound, r);
            AnswersOk(requests - {r}, replies + {reply}, published + publications)
  {
    var publications := ResponseProcess(bound, r).0;
    IdsConcat(published, publications);
    assert r.name in bound ==> publications[0].id in Ids(publications);
    assert r.name !in bound ==> Ids(publications) == {};
    forall id | id in Ids(publications) ensures id == r.id {}
  }

  lemma RespondOutcomes(calls: seq<Call>, outcomes: map<CallId, CallError>, requesters: map<Node, Instance>,
                        r: Request, requests: set<Request>, replies: set<Reply>, published: seq<Publication>,
                        bound: set<Name>)
    requires OutcomesOk(calls, outcomes, requesters, requests, replies, Ids(published)) && r in requests
    ensures var (publications, reply) := ResponseProcess(bound, r);
            OutcomesOk(calls, outcomes, requesters, requests - {r}, replies + {reply}, Ids(published + publications))
  {
    IdsConcat(published, ResponseProcess(bound, r).0);
  }

  lemma RespondExecution(bound: map<Node, set<Name>>, seen: map<Node, nat>, executed: map<Node, seq<nat>>,
                         published: seq<Publication>, more: seq<Publication>)
    requires ExecutionOk(bound, seen, executed, published)
    ensures ExecutionOk(bound, seen, executed, published + more)
  {
  }

  lemma RespondOrder(calls: seq<Call>, outcomes: map<CallId, CallError>, published: seq<Publication>, p: Publication)
    requires OrderOk(calls, outcomes, published)
    requires forall id :: p.id < id < |calls| && calls[id].node == calls[p.id].node ==>
               p.id in outcomes && outcomes[p.id] == NetworkTimeout
    ensures OrderOk(calls, outcomes, published + [p])
  {
  }

  /** If its node has made another call since, the request on its way is one that was given up. */
  lemma OldRequestTimedOut(c: Config, s: State, r: Request)
    requires Inv(c, s) && r in s.requests
    ensures r.id < |s.calls|
    ensures forall id :: r.id < id < |s.calls| && s.calls[id].node == s.calls[r.id].node ==>
              r.id in s.outcomes && s.outcomes[r.id] == NetworkTimeout
  {
    hide AnswersOk, ExecutionOk, OrderOk, InstancesOk;
  }

  lemma RespondKeeps(c: Config, s: State, r: Request)
    requires c.Valid() && Inv(c, s) && Enabled(c, s, Respond(r))
    ensures Inv(c, Apply(c, s, Respond(r)))
  {
    hide CallsOk, MessagesOk, AnswersOk, OutcomesOk, ExecutionOk, OrderOk, InstancesOk;
    var bound := c.bound[c.server];
    OldRequestTimedOut(c, s, r);
    RespondMessages(s.calls, r, s.requests, s.replies, s.published, bound);
    RespondAnswers(r, s.requests, s.replies, s.published, bound);
    RespondOutcomes(s.calls, s.outcomes, s.requesters, r, s.requests, s.replies, s.published, bound);
    RespondExecution(c.bound, s.seen, s.executed, s.published, ResponseProcess(bound, r).0);
    if r.name in bound {
      RespondOrder(s.calls, s.outcomes, s.published, Publication(r.id, r.name, r.args));
    } else {
      assert s.published + [] == s.published;
    }
  }

  /** A reply that reaches a waiting node answers the call it waits for. */
  lemma ReplyIsOwn(c: Config, s: State, r: Reply, node: Node)
    requires Inv(c, s) && r in s.replies
    requires node in s.waiting && node in s.requesters && s.requesters[node] == r.instance
    ensures s.waiting[node] == r.id && r.id < |s.calls|
    ensures CallResult(s.calls[r.id].name, r) == if r.code == Done then Success else FunctionNotFound
    ensures r.id !in s.outcomes && (r.code == Done <==> r.id in Ids(s.published))
    ensures forall q :: q in s.requests ==> q.id != r.id
    ensures forall q :: q in s.replies && q.id == r.id ==> q == r
  {
    hide ExecutionOk, OrderOk, InstancesOk;
  }

  lemma FinishCalls(nodes: set<Node>, calls: seq<Call>, outcomes: map<CallId, CallError>,
                    requesters: map<Node, Instance>, waiting: map<Node, CallId>, next: Instance, node: Node,
                    e: CallError)
    requires CallsOk(nodes, calls, outcomes, requesters, waiting, next) && node in waiting
    ensures CallsOk(nodes, calls, outcomes[waiting[node] := e], requesters, waiting - {node}, next)
  {
  }

  lemma FinishOrder(calls: seq<Call>, outcomes: map<CallId, CallError>, published: seq<Publication>, id: CallId,
                    e: CallError)
    requires OrderOk(calls, outcomes, published) && id !in outcomes
    ensures OrderOk(calls, outcomes[id := e], published)
  {
  }

  /** A call that is finished was not followed by another of the same requester. */
  lemma FinishInstances(calls: seq<Call>, outcomes: map<CallId, CallError>, requesters: map<Node, Instance>,
                        id: CallId, e: CallError)
    requires InstancesOk(calls, outcomes, requesters) && id < |calls| && id !in outcomes
    requires e == NetworkTimeout ==> forall n :: n in requesters ==> calls[id].instance != requesters[n]
    ensures InstancesOk(calls, outcomes[id := e], requesters)
  {
  }

  lemma ReplacedInstances(nodes: set<Node>, calls: seq<Call>, outcomes: map<CallId, CallError>,
                          requesters: map<Node, Instance>, waiting: map<Node, CallId>, next: Instance,
                          node: Node, requesters': map<Node, Instance>)
    requires CallsOk(nodes, calls, outcomes, requesters, waiting, next) && InstancesOk(calls, outcomes, requesters)
    requires node in waiting && requesters' == requesters[node := next]
    ensures InstancesOk(calls, outcomes, requesters')
    ensures forall n :: n in requesters' ==> calls[waiting[node]].instance != requesters'[n]
  {
  }

  lemma ReceiveOutcomes(calls: seq<Call>, outcomes: map<CallId, CallError>, requesters: map<Node, Instance>,
                        requests: set<Request>, replies: set<Reply>, ids: set<CallId>, r: Reply, e: CallError)
    requires OutcomesOk(calls, outcomes, requesters, requests, replies, ids)
    requires e == Success ==> r.id in ids
    requires e == FunctionNotFound ==> r.id !in ids
    requires e != FunctionNameMismatch
    requires forall q :: q in requests ==> q.id != r.id
    requires forall q :: q in replies && q.id == r.id ==> q == r
    ensures OutcomesOk(calls, outcomes[r.id := e], requesters, requests, replies - {r}, ids)
  {
  }

  lemma ReceiveKeeps(c: Config, s: State, node: Node, r: Reply)
    requires c.Valid() && Inv(c, s) && Enabled(c, s, Receive(node, r))
    ensures Inv(c, Apply(c, s, Receive(node, r)))
  {
    hide CallsOk, MessagesOk, AnswersOk, OutcomesOk, ExecutionOk, OrderOk, InstancesOk;
    ReplyIsOwn(c, s, r, node);
    FewerMessages(c, s, {}, {r});
    WaitingIsOpen(c, s, node);
    var e := CallResult(s.calls[r.id].name, r);
    FinishCalls(c.nodes, s.calls, s.outcomes, s.requesters, s.waiting, s.nextInstance, node, e);
    FinishOrder(s.calls, s.outcomes, s.published, r.id, e);
    FinishInstances(s.calls, s.outcomes, s.requesters, r.id, e);
    ReceiveOutcomes(s.calls, s.outcomes, s.requesters, s.requests, s.replies, Ids(s.published), r, e);
    assert s.requests - {} == s.requests;
  }

  /** Losing messages breaks nothing. */
  lemma FewerMessages(c: Config, s: State, requests: set<Request>, replies: set<Reply>)
    requires Inv(c, s)
    ensures MessagesOk(s.calls, s.requests - requests, s.replies - replies, s.published, c.bound[c.server])
    ensures AnswersOk(s.requests - requests, s.replies - replies, s.published)
    ensures OutcomesOk(s.calls, s.outcomes, s.requesters, s.requests - requests, s.replies - replies, Ids(s.published))
  {
    hide CallsOk, ExecutionOk, OrderOk, InstancesOk;
  }

  lemma LossKeeps(c: Config, s: State, requests: set<Request>, replies: set<Reply>)
    requires c.Valid() && Inv(c, s)
    ensures Inv(c, s.(requests := s.requests - requests, replies := s.replies - replies))
  {
    FewerMessages(c, s, requests, replies);
    hide CallsOk, MessagesOk, AnswersOk, OutcomesOk, ExecutionOk, OrderOk, InstancesOk;
  }

  lemma GiveUpCalls(nodes: set<Node>, calls: seq<Call>, outcomes: map<CallId, CallError>,
                    requesters: map<Node, Instance>, waiting: map<Node, CallId>, next: Instance, node: Node)
    requires CallsOk(nodes, calls, outcomes, requesters, waiting, next) && node in nodes && node !in waiting
    ensures CallsOk(nodes, calls, outcomes, requesters[node := next], waiting, next + 1)
  {
  }

  lemma GiveUpOutcomes(c: Config, s: State, node: Node)
    requires Inv(c, s) && node in s.waiting
    ensures OutcomesOk(s.calls, s.outcomes[s.waiting[node] := NetworkTimeout], s.requesters[node := s.nextInstance],
                       s.requests, s.replies, Ids(s.published))
  {
    hide AnswersOk, ExecutionOk, OrderOk, InstancesOk;
  }

  lemma WaitingIsOpen(c: Config, s: State, node: Node)
    requires Inv(c, s) && node in s.waiting
    ensures node in c.nodes && s.waiting[node] < |s.calls| && s.waiting[node] !in s.outcomes
  {
    hide MessagesOk, AnswersOk, OutcomesOk, ExecutionOk, OrderOk, InstancesOk;
  }

  lemma GiveUpKeeps(c: Config, s: State, node: Node)
    requires c.Valid() && Inv(c, s) && Enabled(c, s, GiveUp(node))
    ensures Inv(c, Apply(c, s, GiveUp(node)))
  {
    hide CallsOk, MessagesOk, AnswersOk, OutcomesOk, ExecutionOk, OrderOk, InstancesOk;
    WaitingIsOpen(c, s, node);
    GiveUpOutcomes(c, s, node);
    FinishCalls(c.nodes, s.calls, s.outcomes, s.requesters, s.waiting, s.nextInstance, node, NetworkTimeout);
    GiveUpCalls(c.nodes, s.calls, s.outcomes[s.waiting[node] := NetworkTimeout], s.requesters, s.waiting - {node},
                s.nextInstance, node);
    FinishOrder(s.calls, s.outcomes, s.published, s.waiting[node], NetworkTimeout);
    var requesters := s.requesters[node := s.nextInstance];
    ReplacedInstances(c.nodes, s.calls, s.outcomes, s.requesters, s.waiting, s.nextInstance, node, requesters);
    FinishInstances(s.calls, s.outcomes, requesters, s.waiting[node], NetworkTimeout);
  }

  lemma DeliverExecution(bound: map<Node, set<Name>>, seen: map<Node, nat>, executed: map<Node, seq<nat>>,
                         published: seq<Publication>, node: Node, index: nat)
    requires ExecutionOk(bound, seen, executed, published) && node in bound
    requires seen[node] <= index < |published|
    ensures var runs := published[index].name in bound[node];
            ExecutionOk(bound, seen[node := index + 1], executed[node := executed[node] + if runs then [index] else []],
                        published)
  {
    DeliverToNode(bound[node], seen[node], executed[node], published, index);
    hide NodeExecutionOk;
  }

  lemma DeliverToNode(bound: set<Name>, seen: nat, executed: seq<nat>, published: seq<Publication>, index: nat)
    requires NodeExecutionOk(bound, seen, executed, published) && seen <= index < |published|
    ensures var runs := published[index].name in bound;
            NodeExecutionOk(bound, index + 1, executed + if runs then [index] else [], published)
  {
  }

  lemma DeliverKeeps(c: Config, s: State, node: Node, index: nat)
    requires c.Valid() && Inv(c, s) && Enabled(c, s, Deliver(node, index))
    ensures Inv(c, Apply(c, s, Deliver(node, index)))
  {
    hide CallsOk, MessagesOk, AnswersOk, OutcomesOk, ExecutionOk, OrderOk, InstancesOk;
    DeliverExecution(c.bound, s.seen, s.executed, s.published, node, index);
  }

  /** Every step keeps the invariant. */
  lemma StepKeeps(c: Config, s: State, step: Step)
    requires c.Valid() && Inv(c, s) && Enabled(c, s, step)
    ensures Inv(c, Apply(c, s, step))
  {
    hide Inv;
    match step
    case Invoke(node, name, args) => InvokeKeeps(c, s, node, name, args);
    case Respond(request) => RespondKeeps(c, s, request);
    case Receive(node, reply) => ReceiveKeeps(c, s, node, reply);
    case GiveUp(node) => GiveUpKeeps(c, s, node);
    case LoseRequest(request) =>
      LossKeeps(c, s, {request}, {});
      assert s.replies - {} == s.replies;
    case LoseReply(reply) =>
      LossKeeps(c, s, {}, {reply});
      assert s.requests - {} == s.requests;
    case Deliver(node, index) => DeliverKeeps(c, s, node, index);
  }

  lemma {:induction false} RunKeeps(c: Config, s: State, steps: seq<Step>, t: State)
    requires c.Valid() && Inv(c, s) && Runs(c, s, steps, t)
    ensures Inv(c, t)
    decreases |steps|
  {
    hide Inv, Enabled, Apply;
    if steps != [] {
      StepKeeps(c, s, steps[0]);
      RunKeeps(c, Apply(c, s, steps[0]), steps[1..], t);
    }
  }

  // ----- What holds after every run

  ghost predicate Reachable(c: Config, t: State) {
    exists s, steps :: Init(c, s) && Runs(c, s, steps, t)
  }

  lemma ReachableInv(c: Config, t: State)
    requires c.Valid() && Reachable(c, t)
    ensures Inv(c, t)
  {
    hide Inv, Init, Runs;
    var s, steps :| Init(c, s) && Runs(c, s, steps, t);
    InitInv(c, s);
    RunKeeps(c, s, steps, t);
  }

  /**
    Each node runs an in-order part of what the server published, no publication twice, only
    under names bound at the node, and with the arguments of the caller.
   */
  lemma NodesRunTheLog(c: Config, t: State, n: Node, k: nat)
    requires c.Valid() && Reachable(c, t) && n in c.nodes
    ensures n in t.executed
    ensures k < |t.executed[n]| ==>
              var index := t.executed[n][k];
              && index < |t.published| && t.published[index].name in c.bound[n]
              && t.published[index].id < |t.calls|
              && t.published[index].name == t.calls[t.published[index].id].name
              && t.published[index].args == t.calls[t.published[index].id].args
              && (forall j :: 0 <= j < k ==> t.executed[n][j] < index)
  {
    ReachableInv(c, t);
    hide CallsOk, AnswersOk, OutcomesOk, OrderOk, InstancesOk;
  }

  // ----- What arrives is run

  /** The publications delivered to `n` by these steps, in order. */
  ghost function Delivered(steps: seq<Step>, n: Node): seq<nat> {
    if steps == [] then []
    else (if steps[0].Deliver? && steps[0].node == n then [steps[0].index] else []) + Delivered(steps[1..], n)
  }

  /** Those of the publications at `indices` whose names are bound. */
  ghost function BoundAmong(indices: seq<nat>, published: seq<Publication>, bound: set<Name>): seq<nat> {
    if indices == [] then []
    else
      (if indices[0] < |published| && published[indices[0]].name in bound then [indices[0]] else [])
      + BoundAmong(indices[1..], published, bound)
  }

  /** What has been published stays so. */
  lemma StepPublishes(c: Config, s: State, step: Step)
    requires Enabled(c, s, step)
    ensures s.published <= Apply(c, s, step).published
    ensures Apply(c, s, step).published != s.published ==> step.Respond?
  {
  }

  lemma {:induction false} LogGrows(c: Config, s: State, steps: seq<Step>, t: State)
    requires Runs(c, s, steps, t)
    ensures s.published <= t.published
    decreases |steps|
  {
    hide Enabled, Apply;
    if steps != [] {
      StepPublishes(c, s, steps[0]);
      LogGrows(c, Apply(c, s, steps[0]), steps[1..], t);
    }
  }

  /** One step changes what `n` has run exactly if it delivers a bound publication to `n`. */
  lemma StepExecutes(c: Config, s: State, step: Step, n: Node)
    requires Enabled(c, s, step) && n in s.executed && n in c.bound
    ensures n in Apply(c, s, step).executed
    ensures Apply(c, s, step).executed[n]
         == s.executed[n] + BoundAmong(Delivered([step], n), s.published, c.bound[n])
    ensures step.Deliver? ==> step.index < |s.published|
  {
    assert [step][1..] == [];
    if step.Deliver? && step.node == n {
      assert [step.index][1..] == [];
    }
  }

  lemma {:induction false} BoundConcat(a: seq<nat>, b: seq<nat>, published: seq<Publication>, bound: set<Name>)
    ensures BoundAmong(a + b, published, bound) == BoundAmong(a, published, bound) + BoundAmong(b, published, bound)
    decreases |a|
  {
    if a == [] {
      assert a + b == b;
    } else {
      assert (a + b)[0] == a[0] && (a + b)[1..] == a[1..] + b;
      BoundConcat(a[1..], b, published, bound);
    }
  }

  /** In every run, a node runs exactly what is delivered to it and bound there, in order. */
  lemma {:induction false} RunExecutes(c: Config, s: State, steps: seq<Step>, t: State, n: Node)
    requires Runs(c, s, steps, t) && n in s.executed && n in c.bound
    ensures n in t.executed
    ensures t.executed[n] == s.executed[n] + BoundAmong(Delivered(steps, n), t.published, c.bound[n])
    decreases |steps|
  {
    hide Enabled, Apply, Runs, BoundAmong, Delivered;
    RunsFirst(c, s, steps, t);
    if steps == [] {
      NothingDelivered(t.published, c.bound[n], n);
    } else {
      var next, own, bound := Apply(c, s, steps[0]), Delivered([steps[0]], n), c.bound[n];
      StepExecutes(c, s, steps[0], n);
      StepPublishes(c, s, steps[0]);
      LogGrows(c, next, steps[1..], t);
      RunExecutes(c, next, steps[1..], t, n);
      FirstDelivered(steps, n);
      BoundStays(own, s.published, t.published, bound);
      BoundConcat(own, Delivered(steps[1..], n), t.published, bound);
    }
  }

  lemma RunsFirst(c: Config, s: State, steps: seq<Step>, t: State)
    requires Runs(c, s, steps, t)
    ensures if steps == [] then s == t else Enabled(c, s, steps[0]) && Runs(c, Apply(c, s, steps[0]), steps[1..], t)
  {
  }

  lemma NothingDelivered(published: seq<Publication>, bound: set<Name>, n: Node)
    ensures BoundAmong(Delivered([], n), published, bound) == []
  {
  }

  lemma FirstDelivered(steps: seq<Step>, n: Node)
    requires steps != []
    ensures Delivered(steps, n) == Delivered([steps[0]], n) + Delivered(steps[1..], n)
    ensures var own := Delivered([steps[0]], n);
            forall k :: 0 <= k < |own| ==> steps[0].Deliver? && own[k] == steps[0].index
  {
    assert [steps[0]][1..] == [];
  }

  /** What is published later does not matter for what has been delivered. */
  lemma {:induction false} BoundStays(indices: seq<nat>, before: seq<Publication>, published: seq<Publication>,
                                      bound: set<Name>)
    requires before <= published && forall k :: 0 <= k < |indices| ==> indices[k] < |before|
    ensures BoundAmong(indices, before, bound) == BoundAmong(indices, published, bound)
    decreases |indices|
  {
    if indices != [] {
      BoundStays(indices[1..], before, published, bound);
    }
  }

  /**
    From the start, what a node has run is exactly what was delivered to it and is bound there,
    in the order of delivery.
   */
  lemma NodesRunWhatArrives(c: Config, s: State, steps: seq<Step>, t: State, n: Node)
    requires c.Valid() && Init(c, s) && Runs(c, s, steps, t) && n in c.nodes
    ensures n in t.executed
    ensures t.executed[n] == BoundAmong(Delivered(steps, n), t.published, c.bound[n])
  {
    hide Runs;
    RunExecutes(c, s, steps, t, n);
    assert [] + BoundAmong(Delivered(steps, n), t.published, c.bound[n])
        == BoundAmong(Delivered(steps, n), t.published, c.bound[n]);
  }

  lemma {:induction false} BoundAmongMeans(indices: seq<nat>, published: seq<Publication>, bound: set<Name>, i: nat)
    ensures i in BoundAmong(indices, published, bound)
            <==> i in indices && i < |published| && published[i].name in bound
    decreases |indices|
  {
    if indices != [] {
      BoundAmongMeans(indices[1..], published, bound, i);
      assert i in indices <==> i == indices[0] || i in indices[1..];
    }
  }

  /** A node that every publication was delivered to has run each of them that is bound there. */
  lemma NothingMissed(c: Config, s: State, steps: seq<Step>, t: State, n: Node, i: nat)
    requires c.Valid() && Init(c, s) && Runs(c, s, steps, t) && n in c.nodes
    requires i < |t.published| && t.published[i].name in c.bound[n]
    ensures n in t.executed
    ensures i in t.executed[n] <==> i in Delivered(steps, n)
  {
    hide Runs, Init;
    NodesRunWhatArrives(c, s, steps, t, n);
    BoundAmongMeans(Delivered(steps, n), t.published, c.bound[n], i);
  }

  // ----- Calls come to an end

  /**
    Whatever has happened before, a node that waits for nothing can make a call, and if no
    message is lost and it waits, the call ends: with success exactly if the server has the name
    bound, and with nothing published but, in that case, this call, once.
   */
  lemma CallCompletes(c: Config, s: State, node: Node, name: Name, args: Arguments) returns (steps: seq<Step>, t: State)
    requires c.Valid() && Inv(c, s) && node in c.nodes && node !in s.waiting
    ensures Runs(c, s, steps, t) && Inv(c, t)
    ensures node !in t.waiting && |s.calls| in t.outcomes
    ensures t.outcomes[|s.calls|] == if name in c.bound[c.server] then Success else FunctionNotFound
    ensures t.published
         == s.published + if name in c.bound[c.server] then [Publication(|s.calls|, name, args)] else []
    ensures t.executed == s.executed && t.seen == s.seen
  {
    hide Inv, Runs;
    StillKnown(c, s);
    var invoke := Invoke(node, name, args);
    assert Enabled(c, s, invoke);
    var s1 := Apply(c, s, invoke);
    var request := Request(|s.calls|, s.requesters[node], name, args);
    var s2 := Apply(c, s1, Respond(request));
    var reply := ResponseProcess(c.bound[c.server], request).1;
    var receive := Receive(node, reply);
    t := Apply(c, s2, receive);
    steps := [invoke] + ([Respond(request)] + ([receive] + []));
    StepKeeps(c, s, invoke);
    StepKeeps(c, s1, Respond(request));
    StepKeeps(c, s2, receive);
    NoSteps(c, t);
    RunsCons(c, s2, receive, [], t);
    RunsCons(c, s1, Respond(request), [receive] + [], t);
    RunsCons(c, s, invoke, [Respond(request)] + ([receive] + []), t);
  }

  lemma StillKnown(c: Config, s: State)
    requires c.Valid() && Inv(c, s)
    ensures s.requesters.Keys == c.nodes && c.server in c.bound
    ensures s.seen.Keys == s.executed.Keys == c.nodes
    ensures forall n :: n in c.nodes ==> s.seen[n] <= |s.published|
  {
    hide MessagesOk, AnswersOk, OutcomesOk, OrderOk, InstancesOk;
  }

  /** And what is published can be delivered to every node that has not gone past it, which runs it if it can. */
  lemma DeliveryRuns(c: Config, s: State, n: Node, index: nat) returns (t: State)
    requires c.Valid() && Inv(c, s) && n in c.nodes && n in s.seen && s.seen[n] <= index < |s.published|
    ensures Runs(c, s, [Deliver(n, index)], t) && n in s.executed && n in t.executed
    ensures t.published == s.published
    ensures t.executed[n] == s.executed[n] + if s.published[index].name in c.bound[n] then [index] else []
    ensures forall m :: m != n && m in s.executed ==> m in t.executed && t.executed[m] == s.executed[m]
  {
    hide Inv, Runs;
    StillKnown(c, s);
    t := Apply(c, s, Deliver(n, index));
    NoSteps(c, t);
    RunsCons(c, s, Deliver(n, index), [], t);
    assert [Deliver(n, index)] + [] == [Deliver(n, index)];
  }

  /** Nothing has been published or run on the way from `s` to `t`, and the calls that ended there timed out. */
  ghost predicate OnlyTimeouts(s: State, t: State) {
    && t.calls == s.calls && t.published == s.published && t.seen == s.seen && t.executed == s.executed
    && (forall id :: id in s.outcomes ==> id in t.outcomes && t.outcomes[id] == s.outcomes[id])
    && (forall id :: id in t.outcomes && id !in s.outcomes ==> t.outcomes[id] == NetworkTimeout)
  }

  /** Whatever is under way can be lost, and every caller can give up, after which nothing is under way. */
  lemma {:induction false} AllCanBeLost(c: Config, s: State) returns (steps: seq<Step>, t: State)
    requires c.Valid() && Inv(c, s)
    ensures Runs(c, s, steps, t) && Inv(c, t) && OnlyTimeouts(s, t)
    ensures t.requests == {} && t.replies == {} && t.waiting == map[]
    decreases UnderWay(s)
  {
    hide Inv, Runs, Apply, Enabled, OnlyTimeouts, UnderWay;
    if s.requests == {} && s.replies == {} && s.waiting == map[] {
      steps, t := [], s;
      NoSteps(c, s);
      NothingChanged(s);
    } else {
      var step := LossOf(c, s);
      StepKeeps(c, s, step);
      var rest, u := AllCanBeLost(c, Apply(c, s, step));
      steps, t := [step] + rest, u;
      RunsCons(c, s, step, rest, t);
      TimeoutsAddUp(s, Apply(c, s, step), t);
    }
  }

  lemma NothingChanged(s: State)
    ensures OnlyTimeouts(s, s)
  {
  }

  lemma TimeoutsAddUp(s: State, t: State, u: State)
    requires OnlyTimeouts(s, t) && OnlyTimeouts(t, u)
    ensures OnlyTimeouts(s, u)
  {
  }

  /** How much is under way. */
  ghost function UnderWay(s: State): nat {
    |s.requests| + |s.replies| + |s.waiting.Keys|
  }

  /** A step that loses a message or a call. */
  ghost predicate Loses(c: Config, s: State, step: Step) {
    Enabled(c, s, step) && OnlyTimeouts(s, Apply(c, s, step)) && UnderWay(Apply(c, s, step)) < UnderWay(s)
  }

  lemma RequestCanBeLost(c: Config, s: State, r: Request)
    requires r in s.requests
    ensures Loses(c, s, LoseRequest(r))
  {
    assert |s.requests - {r}| == |s.requests| - 1;
  }

  lemma ReplyCanBeLost(c: Config, s: State, r: Reply)
    requires r in s.replies
    ensures Loses(c, s, LoseReply(r))
  {
    assert |s.replies - {r}| == |s.replies| - 1;
  }

  lemma CallerCanGiveUp(c: Config, s: State, n: Node)
    requires Inv(c, s) && n in s.waiting
    ensures Loses(c, s, GiveUp(n))
  {
    hide Inv;
    WaitingIsOpen(c, s, n);
    assert (s.waiting - {n}).Keys == s.waiting.Keys - {n};
    assert |s.waiting.Keys - {n}| == |s.waiting.Keys| - 1;
  }

  lemma LossOf(c: Config, s: State) returns (step: Step)
    requires Inv(c, s)
    requires !(s.requests == {} && s.replies == {} && s.waiting == map[])
    ensures Loses(c, s, step)
  {
    hide Inv, Loses;
    if s.requests != {} {
      var r :| r in s.requests;
      step := LoseRequest(r);
      RequestCanBeLost(c, s, r);
    } else if s.replies != {} {
      var r :| r in s.replies;
      step := LoseReply(r);
      ReplyCanBeLost(c, s, r);
    } else {
      assert s.waiting != map[];
      var n :| n in s.waiting;
      step := GiveUp(n);
      CallerCanGiveUp(c, s, n);
    }
  }

  // ----- Outcomes and the names that are bound

  /** Replies and results say whether the server has the name bound. */
  ghost predicate VerdictsOk(calls: seq<Call>, outcomes: map<CallId, CallError>, replies: set<Reply>,
                             bound: set<Name>) {
    && (forall r :: r in replies ==> (r.code == Done <==> r.name in bound))
    && (forall id :: id in outcomes && id < |calls| ==>
          (outcomes[id] == Success ==> calls[id].name in bound)
          && (outcomes[id] == FunctionNotFound ==> calls[id].name !in bound))
  }

  ghost predicate Verdicts(c: Config, s: State) {
    c.server in c.bound && VerdictsOk(s.calls, s.outcomes, s.replies, c.bound[c.server])
  }

  lemma VerdictsKept(c: Config, s: State, step: Step)
    requires c.Valid() && Inv(c, s) && Enabled(c, s, step) && Verdicts(c, s)
    ensures Verdicts(c, Apply(c, s, step))
  {
    hide Inv;
    Finished(c, s);
    match step
    case Receive(node, reply) =>
      ReplyIsOwn(c, s, reply, node);
      ReceiveVerdict(s.calls, s.outcomes, s.replies, c.bound[c.server], reply);
    case _ =>
  }

  lemma ReceiveVerdict(calls: seq<Call>, outcomes: map<CallId, CallError>, replies: set<Reply>, bound: set<Name>,
                       r: Reply)
    requires VerdictsOk(calls, outcomes, replies, bound) && r in replies
    requires r.id < |calls| && calls[r.id].name == r.name
    ensures VerdictsOk(calls, outcomes[r.id := CallResult(calls[r.id].name, r)], replies - {r}, bound)
  {
  }

  lemma Finished(c: Config, s: State)
    requires Inv(c, s)
    ensures forall id :: id in s.outcomes ==> id < |s.calls|
    ensures forall r :: r in s.replies ==> r.id < |s.calls| && s.calls[r.id].name == r.name
    ensures forall n :: n in s.waiting ==> s.waiting[n] < |s.calls|
  {
    hide AnswersOk, OutcomesOk, ExecutionOk, OrderOk, InstancesOk;
  }

  lemma {:induction false} VerdictsAlong(c: Config, s: State, steps: seq<Step>, t: State)
    requires c.Valid() && Inv(c, s) && Verdicts(c, s) && Runs(c, s, steps, t)
    ensures Verdicts(c, t)
    decreases |steps|
  {
    hide Inv, Enabled, Apply, Verdicts;
    if steps != [] {
      StepKeeps(c, s, steps[0]);
      VerdictsKept(c, s, steps[0]);
      VerdictsAlong(c, Apply(c, s, steps[0]), steps[1..], t);
    }
  }

  /** A call succeeds only if the server has its name bound, and is not found only if it has not. */
  lemma OutcomesTellBinding(c: Config, t: State, id: CallId)
    requires c.Valid() && Reachable(c, t) && id in t.outcomes
    ensures id < |t.calls| && c.server in c.bound
    ensures t.outcomes[id] == Success ==> t.calls[id].name in c.bound[c.server]
    ensures t.outcomes[id] == FunctionNotFound ==> t.calls[id].name !in c.bound[c.server]
  {
    hide Inv, Runs, Init;
    ReachableInv(c, t);
    var s, steps :| Init(c, s) && Runs(c, s, steps, t);
    InitInv(c, s);
    NoVerdicts(c, s);
    VerdictsAlong(c, s, steps, t);
    Finished(c, t);
  }

  lemma NoVerdicts(c: Config, s: State)
    requires c.Valid() && Init(c, s)
    ensures Verdicts(c, s)
  {
  }

  /** No two nodes run two publications in opposite orders. */
  lemma NodesAgreeOnOrder(c: Config, t: State, m: Node, n: Node, i: nat, j: nat, k: nat, l: nat)
    requires c.Valid() && Reachable(c, t) && m in c.nodes && n in c.nodes && m in t.executed && n in t.executed
    requires i < |t.executed[m]| && j < |t.executed[m]| && k < |t.executed[n]| && l < |t.executed[n]|
    requires t.executed[m][i] == t.executed[n][k] && t.executed[m][j] == t.executed[n][l]
    ensures i < j <==> k < l
  {
    hide Reachable, Config.Valid;
    NodesRunTheLog(c, t, m, Max(i, j));
    NodesRunTheLog(c, t, n, Max(k, l));
  }

  /** How often the call was published. */
  ghost function TimesPublished(published: seq<Publication>, id: CallId): nat {
    if published == [] then 0
    else TimesPublished(published[1..], id) + if published[0].id == id then 1 else 0
  }

  lemma {:induction false} PublishedOnce(published: seq<Publication>, id: CallId)
    requires forall i, j :: 0 <= i < j < |published| ==> published[i].id != published[j].id
    ensures TimesPublished(published, id) == if id in Ids(published) then 1 else 0
  {
    if published != [] {
      IdsConcat([published[0]], published[1..]);
      assert [published[0]] + published[1..] == published;
      assert Ids([published[0]]) == {published[0].id};
      PublishedOnce(published[1..], id);
    }
  }

  /**
    What the result of a call tells: success that it was published exactly once, "not found" that
    it never was, a timeout that it was at most once.  A reply to another call is never accepted.
   */
  lemma OutcomesTell(c: Config, t: State, id: CallId)
    requires c.Valid() && Reachable(c, t) && id in t.outcomes
    ensures t.outcomes[id] != FunctionNameMismatch
    ensures t.outcomes[id] == Success ==> TimesPublished(t.published, id) == 1
    ensures t.outcomes[id] == FunctionNotFound ==> TimesPublished(t.published, id) == 0
    ensures TimesPublished(t.published, id) <= 1
  {
    ReachableInv(c, t);
    hide CallsOk, MessagesOk, ExecutionOk, OrderOk, InstancesOk;
    PublishedOnce(t.published, id);
  }

  /** Every requester, replaced or in use, has at most one unanswered request. */
  lemma OneRequestPerInstance(c: Config, t: State, q: Request, r: Request)
    requires c.Valid() && Reachable(c, t) && q in t.requests && r in t.requests && q.instance == r.instance
    ensures q == r
  {
    ReachableInv(c, t);
    hide CallsOk, ExecutionOk, OrderOk;
  }

  /** Calls of one node are published in the order they were made, unless the earlier one timed out. */
  lemma CallsKeepOrder(c: Config, t: State, i: nat, j: nat)
    requires c.Valid() && Reachable(c, t) && i < |t.published| && j < |t.published|
    ensures t.published[i].id < |t.calls| && t.published[j].id < |t.calls|
    ensures t.calls[t.published[i].id].node == t.calls[t.published[j].id].node
            && t.published[j].id < t.published[i].id && i < j ==>
              t.published[j].id in t.outcomes && t.outcomes[t.published[j].id] == NetworkTimeout
  {
    ReachableInv(c, t);
    hide CallsOk, AnswersOk, OutcomesOk, ExecutionOk;
  }

  lemma RunsCons(c: Config, s: State, step: Step, rest: seq<Step>, t: State)
    requires Enabled(c, s, step) && Runs(c, Apply(c, s, step), rest, t)
    ensures Runs(c, s, [step] + rest, t)
  {
    hide Enabled, Apply;
    assert ([step] + rest)[1..] == rest;
  }

  /** A call that was given up may still be published, even after a later call of the same node. */
  lemma LatePublication() returns (c: Config, t: State)
    ensures c.Valid() && Reachable(c, t)
    ensures |t.calls| == |t.published| == 2 && t.calls[0].node == t.calls[1].node
    ensures t.published[0].id == 1 && t.published[1].id == 0
  {
    var f: Name := [0x66];
    c := Config({0}, 0, map[0 := {f}]);
    var first, second := Call(0, 0, f, []), Call(0, 1, f, []);
    var early, late := Request(0, 0, f, []), Request(1, 1, f, []);
    var s0 := State([], map[], map[0 := 0], map[], 1, {}, {}, [], map[0 := 0], map[0 := []]);
    var s1 := s0.(calls := [first], waiting := map[0 := 0], requests := {early});
    var s2 := s1.(waiting := map[], outcomes := map[0 := NetworkTimeout], requesters := map[0 := 1], nextInstance := 2);
    var s3 := s2.(calls := [first, second], waiting := map[0 := 1], requests := {early, late});
    var s4 := s3.(requests := {early}, replies := {Reply(1, 1, f, Done)}, published := [Publication(1, f, [])]);
    t := s4.(requests := {}, replies := {Reply(1, 1, f, Done), Reply(0, 0, f, Done)},
             published := [Publication(1, f, []), Publication(0, f, [])]);
    hide Enabled, Apply, Runs, Init, Config.Valid;
    LateStart(c, s0, f);
    LateInvoke(c, s0, f, s1);
    LateGiveUp(c, s1, s2);
    LateInvoke(c, s2, f, s3);
    LateAnswers(c, s3, s4, t, early, late);
    FiveSteps(c, s0, Invoke(0, f, []), s1, GiveUp(0), s2, Invoke(0, f, []), s3, Respond(late), s4, Respond(early), t);
  }

  lemma FiveSteps(c: Config, s0: State, a: Step, s1: State, b: Step, s2: State, d: Step, s3: State, e: Step, s4: State,
                  f: Step, t: State)
    requires Enabled(c, s0, a) && s1 == Apply(c, s0, a)
    requires Enabled(c, s1, b) && s2 == Apply(c, s1, b)
    requires Enabled(c, s2, d) && s3 == Apply(c, s2, d)
    requires Enabled(c, s3, e) && s4 == Apply(c, s3, e)
    requires Enabled(c, s4, f) && t == Apply(c, s4, f)
    ensures exists steps :: Runs(c, s0, steps, t)
  {
    hide Enabled, Apply, Runs;
    NoSteps(c, t);
    RunsCons(c, s4, f, [], t);
    RunsCons(c, s3, e, [f] + [], t);
    RunsCons(c, s2, d, [e] + ([f] + []), t);
    RunsCons(c, s1, b, [d] + ([e] + ([f] + [])), t);
    RunsCons(c, s0, a, [b] + ([d] + ([e] + ([f] + []))), t);
  }

  lemma NoSteps(c: Config, t: State)
    ensures Runs(c, t, [], t)
  {
  }

  lemma LateStart(c: Config, s: State, f: Name)
    requires c == Config({0}, 0, map[0 := {f}])
    requires s == State([], map[], map[0 := 0], map[], 1, {}, {}, [], map[0 := 0], map[0 := []])
    ensures c.Valid() && Init(c, s)
  {
  }

  lemma LateInvoke(c: Config, s: State, f: Name, s': State)
    requires 0 in s.requesters && s.waiting == map[]
    requires s' == s.(calls := s.calls + [Call(0, s.requesters[0], f, [])], waiting := map[0 := |s.calls|],
                      requests := s.requests + {Request(|s.calls|, s.requesters[0], f, [])})
    ensures Enabled(c, s, Invoke(0, f, [])) && Apply(c, s, Invoke(0, f, [])) == s'
  {
  }

  lemma LateGiveUp(c: Config, s: State, s': State)
    requires s.waiting == map[0 := 0] && s.outcomes == map[] && s.requesters == map[0 := 0] && s.nextInstance == 1
    requires s' == s.(waiting := map[], outcomes := map[0 := NetworkTimeout], requesters := map[0 := 1],
                      nextInstance := 2)
    ensures Enabled(c, s, GiveUp(0)) && Apply(c, s, GiveUp(0)) == s'
  {
  }

  lemma LateAnswers(c: Config, s: State, s': State, t: State, early: Request, late: Request)
    requires c.Valid() && s.requests == {early, late} && early != late && s.replies == {} && s.published == []
    requires early.name in c.bound[c.server] && late.name in c.bound[c.server]
    requires s' == s.(requests := {early}, replies := {Reply(late.id, late.instance, late.name, Done)},
                      published := [Publication(late.id, late.name, late.args)])
    requires t == s'.(requests := {},
                      replies := {Reply(late.id, late.instance, late.name, Done),
                                  Reply(early.id, early.instance, early.name, Done)},
                      published := [Publication(late.id, late.name, late.args),
                                    Publication(early.id, early.name, early.args)])
    ensures Enabled(c, s, Respond(late)) && Apply(c, s, Respond(late)) == s'
    ensures Enabled(c, s', Respond(early)) && Apply(c, s', Respond(early)) == t
  {
    assert {early, late} - {late} == {early} && {early} - {early} == {};
  }
}
