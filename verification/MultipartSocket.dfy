/**
  Multipart messages over sockets: `send_multipart`, `recv_multipart`, `recv_multipart_n`
  and `multipart_t`.  Two connected sockets are a queue of parts, each marked with whether
  more parts of its message follow; messages are delivered whole or not at all.
 */
module MultipartSocket {
  import opened Common

  type Message = seq<Bytes>

  datatype Frame = Frame(data: Bytes, more: bool)

  /** The parts of a message on the wire; `open` says that more will be sent after them. */
  function FramesOf(parts: Message, open: bool): seq<Frame> {
    seq(|parts|, i requires 0 <= i < |parts| => Frame(parts[i], open || i + 1 < |parts|))
  }

  /** Whole messages only. */
  predicate Complete(frames: seq<Frame>) {
    frames == [] || !frames[|frames| - 1].more
  }

  /** The number of parts up to the end of the first message. */
  function FirstLength(frames: seq<Frame>): (n: nat)
    requires frames != [] && Complete(frames)
    ensures 0 < n <= |frames|
    ensures forall i :: 0 <= i < n - 1 ==> frames[i].more
    ensures !frames[n - 1].more && Complete(frames[n..])
  {
    if frames[0].more then 1 + FirstLength(frames[1..]) else 1
  }

  function Data(frames: seq<Frame>): Message {
    seq(|frames|, i requires 0 <= i < |frames| => frames[i].data)
  }

  lemma DataSnoc(frames: seq<Frame>, n: nat)
    ensures Data(frames[..0]) == []
    ensures n < |frames| ==> Data(frames[..n + 1]) == Data(frames[..n]) + [frames[n].data]
  {
  }

  /** The messages that a sequence of parts stands for. */
  function Messages(frames: seq<Frame>): seq<Message>
    requires Complete(frames)
    decreases |frames|
  {
    if frames == [] then []
    else
      var n := FirstLength(frames);
      [Data(frames[..n])] + Messages(frames[n..])
  }

  /** A message put on the wire is found there, in front of whatever follows. */
  lemma MessagesFirst(parts: Message, rest: seq<Frame>)
    requires parts != [] && Complete(rest)
    ensures Complete(FramesOf(parts, false) + rest)
    ensures FirstLength(FramesOf(parts, false) + rest) == |parts|
    ensures Messages(FramesOf(parts, false) + rest) == [parts] + Messages(rest)
  {
    var frames := FramesOf(parts, false) + rest;
    var n := FirstLength(frames);
    assert frames[|parts| - 1] == FramesOf(parts, false)[|parts| - 1];
    assert n == |parts|;
    assert frames[..n] == FramesOf(parts, false) && frames[n..] == rest;
    assert Data(FramesOf(parts, false)) == parts;
  }

  /** `recv_multipart` takes the first message off the wire, and nothing else. */
  lemma ReceiveTakesFirst(ready: seq<Frame>)
    requires ready != [] && Complete(ready)
    ensures Messages(ready) == [Data(ready[..FirstLength(ready)])] + Messages(ready[FirstLength(ready)..])
  {
  }

  lemma FirstIsFrames(a: seq<Frame>)
    requires a != [] && Complete(a)
    ensures a[..FirstLength(a)] == FramesOf(Data(a[..FirstLength(a)]), false)
    ensures Data(a[..FirstLength(a)]) != []
  {
    hide FirstLength;
  }

  lemma NoMessages()
    ensures Messages([]) == []
  {
  }

  /** Messages already on the wire are not disturbed by what is sent later. */
  lemma {:induction false} MessagesConcat(a: seq<Frame>, b: seq<Frame>)
    requires Complete(a) && Complete(b)
    ensures Complete(a + b) && Messages(a + b) == Messages(a) + Messages(b)
    decreases |a|
  {
    hide Messages, FirstLength, FramesOf, Data;
    if a == [] {
      assert a + b == b;
      NoMessages();
    } else {
      ReceiveTakesFirst(a);
      var n := FirstLength(a);
      var parts := Data(a[..n]);
      FirstIsFrames(a);
      MessagesConcat(a[n..], b);
      assert a + b == a[..n] + (a[n..] + b);
      MessagesFirst(parts, a[n..] + b);
      assert [parts] + (Messages(a[n..]) + Messages(b)) == Messages(a) + Messages(b);
    }
  }

  /** Parts sent with `sndmore` and parts sent after them form one message. */
  lemma FramesFuse(a: Message, b: Message, open: bool)
    requires b != []
    ensures FramesOf(a, true) + FramesOf(b, open) == FramesOf(a + b, open)
  {
  }

  /** The connection between two sockets. */
  class Pipe {
    /** Parts of a message whose last part has not been sent. */
    var pending: seq<Frame>
    /** Parts that can be received. */
    var ready: seq<Frame>

    constructor ()
      ensures Valid() && pending == [] && ready == []
    {
      pending, ready := [], [];
    }

    ghost predicate Valid()
      reads this
    {
      Complete(ready) && forall i :: 0 <= i < |pending| ==> pending[i].more
    }

    /**
      `send`: without room it fails with `EAGAIN`, but only for the first part of a message.
      A message becomes receivable with its last part.
     */
    method Send(data: Bytes, more: bool, room: bool) returns (sent: bool)
      requires Valid()
      modifies this
      ensures Valid() && sent == (room || old(pending) != [])
      ensures !sent ==> pending == old(pending) && ready == old(ready)
      ensures sent && more ==> pending == old(pending) + [Frame(data, true)] && ready == old(ready)
      ensures sent && !more ==> pending == [] && ready == old(ready) + old(pending) + [Frame(data, false)]
    {
      if !room && pending == [] {
        return false;
      }
      pending := pending + [Frame(data, more)];
      if !more {
        ready := ready + pending;
        pending := [];
      }
      return true;
    }

    /** `recv`: nothing to receive is `EAGAIN`. */
    method Recv() returns (message: Option<Frame>)
      requires Valid()
      modifies `ready
      ensures Valid() && pending == old(pending)
      ensures message == (if old(ready) == [] then None else Some(old(ready)[0]))
      ensures ready == if old(ready) == [] then [] else old(ready)[1..]
    {
      if ready == [] {
        return None;
      }
      message := Some(ready[0]);
      ready := ready[1..];
    }
  }

  /** `send_multipart`: `None` is `EAGAIN`. */
  method SendMultipart(s: Pipe, msgs: Message, sndmore: bool, room: bool) returns (count: Option<nat>)
    requires s.Valid()
    modifies s
    ensures s.Valid()
    ensures count == if msgs == [] || room || old(s.pending) != [] then Some(|msgs|) else None
    ensures msgs == [] || count.None? ==> s.pending == old(s.pending) && s.ready == old(s.ready)
    ensures msgs != [] && count.Some? && sndmore ==>
              s.pending == old(s.pending) + FramesOf(msgs, true) && s.ready == old(s.ready)
    ensures msgs != [] && count.Some? && !sndmore ==>
              s.pending == [] && s.ready == old(s.ready) + old(s.pending) + FramesOf(msgs, false)
  {
    var it := 0;
    while it != |msgs|
      invariant 0 <= it <= |msgs| && s.Valid()
      invariant 0 < it ==> room || old(s.pending) != []
      invariant it < |msgs| || sndmore ==>
                  s.pending == old(s.pending) + FramesOf(msgs, sndmore)[..it] && s.ready == old(s.ready)
      invariant it == |msgs| && !sndmore && 0 < it ==>
                  s.pending == [] && s.ready == old(s.ready) + old(s.pending) + FramesOf(msgs, false)
      invariant it == 0 ==> s.pending == old(s.pending) && s.ready == old(s.ready)
      decreases |msgs| - it
    {
      var next := it + 1;
      var more := sndmore || next != |msgs|;
      ghost var frames := FramesOf(msgs, sndmore);
      assert frames[..next] == frames[..it] + [Frame(msgs[it], more)];
      var sent := s.Send(msgs[it], more, room);
      if !sent {
        assert it == 0;
        return None;
      }
      if next == |msgs| {
        assert frames[..next] == frames;
      }
      it := next;
    }
    return Some(|msgs|);
  }

  datatype Received = Received(count: nat) | Again | TooManyParts

  /** `recv_multipart_n`; without `checkN` it is `recv_multipart`. */
  method RecvMultipartN(s: Pipe, checkN: bool, n: nat) returns (out: Message, r: Received)
    requires s.Valid()
    modifies s
    ensures s.Valid() && s.pending == old(s.pending)
    ensures r.TooManyParts? <==> checkN && (n == 0 || (old(s.ready) != [] && n < FirstLength(old(s.ready))))
    ensures r.Again? <==> old(s.ready) == [] && !(checkN && n == 0)
    ensures r.TooManyParts? || r.Again? ==> |out| == if r.Again? then 0 else n
    ensures r.Received? ==> r.count == |out| == FirstLength(old(s.ready))
    ensures |out| <= |old(s.ready)| && out == Data(old(s.ready)[..|out|]) && s.ready == old(s.ready)[|out|..]
  {
    hide FirstLength, Data;
    out := [];
    ghost var start := s.ready;
    DataSnoc(start, 0);
    while true
      invariant s.Valid() && s.pending == old(s.pending)
      invariant |out| <= |start| && out == Data(start[..|out|]) && s.ready == start[|out|..]
      invariant start == [] ==> out == []
      invariant start != [] ==> |out| < FirstLength(start)
      invariant checkN && 0 < n ==> |out| <= n
      invariant checkN && n == 0 ==> out == []
      decreases |start| - |out|
    {
      if checkN && |out| >= n {
        return out, TooManyParts;
      }
      var message := s.Recv();
      if message.None? {
        assert |out| == 0;
        return out, Again;
      }
      DataSnoc(start, |out|);
      out := out + [message.value.data];
      if !message.value.more {
        break;
      }
    }
    return out, Received(|out|);
  }

  // ----- multipart_t

  class Multipart {
    var parts: Message

    constructor (parts: Message)
      ensures this.parts == parts
    {
      this.parts := parts;
    }

    /** Receives one message; it replaces the parts, also when nothing can be received. */
    method Recv(socket: Pipe) returns (received: bool)
      requires socket.Valid()
      modifies this, socket
      ensures socket.Valid() && socket.pending == old(socket.pending)
      ensures received == (old(socket.ready) != [])
      ensures !received ==> parts == [] && socket.ready == []
      ensures received ==>
                var n := FirstLength(old(socket.ready));
                parts == Data(old(socket.ready)[..n]) && socket.ready == old(socket.ready)[n..]
    {
      hide FirstLength, Data;
      parts := [];
      ghost var start := socket.ready;
      DataSnoc(start, 0);
      var more := true;
      while more
        invariant socket.Valid() && socket.pending == old(socket.pending)
        invariant |parts| <= |start| && parts == Data(start[..|parts|]) && socket.ready == start[|parts|..]
        invariant start == [] ==> more
        invariant start != [] ==> if more then |parts| < FirstLength(start) else |parts| == FirstLength(start)
        decreases more, |start| - |parts|
      {
        var message := socket.Recv();
        if message.None? {
          return false;
        }
        more := message.value.more;
        DataSnoc(start, |parts|);
        parts := parts + [message.value.data];
      }
      return true;
    }

    /**
      Sends the parts as the end of a message, whatever the flags say about more to come.  The
      first part is gone even if there was no room for it.
     */
    method Send(socket: Pipe, room: bool) returns (sent: bool)
      requires socket.Valid()
      modifies this, socket
      ensures socket.Valid()
      ensures sent == (old(parts) == [] || room || old(socket.pending) != [])
      ensures sent ==> parts == []
      ensures !sent ==> parts == old(parts)[1..]
      ensures !sent || old(parts) == [] ==> socket.pending == old(socket.pending) && socket.ready == old(socket.ready)
      ensures sent && old(parts) != [] ==>
                && socket.pending == []
                && socket.ready == old(socket.ready) + old(socket.pending) + FramesOf(old(parts), false)
    {
      ghost var all := parts;
      ghost var frames := FramesOf(all, false);
      ghost var n := 0;
      var more := |parts| > 0;
      while more
        invariant 0 <= n <= |all| && parts == all[n..] && more == (n < |all|)
        invariant socket.Valid() && (0 < n ==> room || old(socket.pending) != [])
        invariant n < |all| ==> socket.pending == old(socket.pending) + frames[..n] && socket.ready == old(socket.ready)
        invariant n == |all| > 0 ==>
                    socket.pending == [] && socket.ready == old(socket.ready) + old(socket.pending) + frames
        invariant n == 0 ==> socket.pending == old(socket.pending) && socket.ready == old(socket.ready)
        decreases |parts|
      {
        var message := Pop();
        more := |parts| > 0;
        assert frames[..n + 1] == frames[..n] + [Frame(message, more)];
        var ok := socket.Send(message, more, room);
        if !ok {
          return false;
        }
        n := n + 1;
        if n == |all| {
          assert frames[..n] == frames;
        }
      }
      parts := [];
      return true;
    }

    method Pop() returns (message: Bytes)
      requires parts != []
      modifies this
      ensures message == old(parts)[0] && parts == old(parts)[1..]
    {
      message := parts[0];
      parts := parts[1..];
    }

    method Remove() returns (message: Bytes)
      requires parts != []
      modifies this
      ensures parts + [message] == old(parts)
    {
      message := parts[|parts| - 1];
      parts := parts[..|parts| - 1];
    }

    /** Puts the other message's parts in front, emptying it. */
    method Prepend(other: Multipart)
      requires other != this
      modifies this, other
      ensures parts == old(other.parts) + old(parts) && other.parts == []
    {
      while other.parts != []
        invariant other.parts + parts == old(other.parts) + old(parts)
        decreases |other.parts|
      {
        ghost var before := other.parts;
        var message := other.Remove();
        assert other.parts + ([message] + parts) == before + parts;
        parts := [message] + parts;
      }
    }

    /** Puts the other message's parts behind, emptying it. */
    method Append(other: Multipart)
      requires other != this
      modifies this, other
      ensures parts == old(parts) + old(other.parts) && other.parts == []
    {
      while other.parts != []
        invariant parts + other.parts == old(parts) + old(other.parts)
        decreases |other.parts|
      {
        ghost var before := other.parts;
        var message := other.Pop();
        assert (parts + [message]) + other.parts == parts + before;
        parts := parts + [message];
      }
    }
  }

  // ----- A whole conversation

  /** One use of the connection, at either end. */
  datatype Operation =
    | SendParts(parts: Message, sndmore: bool, room: bool)
    | SendObject(parts: Message, room: bool)
    | RecvParts
    | RecvAtMost(n: nat)
    | RecvObject
  {
    predicate Sends() {
      SendParts? || SendObject?
    }

    predicate Opens()
      requires Sends()
    {
      SendParts? && sndmore
    }
  }

  /** What a receive gives: a message, nothing, or the parts taken before it threw. */
  datatype Outcome = Got(message: Message) | Nothing | Threw(parts: Message)

  /** The parts sent with more to come, and the messages on their way. */
  datatype Channel = Channel(open: Message, queue: seq<Message>)

  const QUIET := Channel([], [])

  /** Without room only a message already begun can go on. */
  predicate Refused(open: Message, operation: Operation)
    requires operation.Sends()
  {
    operation.parts == [] || (!operation.room && open == [])
  }

  function AfterSend(c: Channel, operation: Operation): Channel
    requires operation.Sends()
  {
    if Refused(c.open, operation) then c
    else if operation.Opens() then c.(open := c.open + operation.parts)
    else Channel([], c.queue + [c.open + operation.parts])
  }

  function AfterReceive(queue: seq<Message>, operation: Operation): (Outcome, seq<Message>)
    requires !operation.Sends()
  {
    if operation == RecvAtMost(0) then (Threw([]), queue)
    else if queue == [] then (Nothing, queue)
    else if operation.RecvAtMost? && operation.n < |queue[0]| then
      (Threw(queue[0][..operation.n]), [queue[0][operation.n..]] + queue[1..])
    else (Got(queue[0]), queue[1..])
  }

  /** What the receives of a conversation give, and the channel it leaves behind. */
  function Outcomes(script: seq<Operation>, c: Channel): (seq<Outcome>, Channel) {
    if script == [] then ([], c)
    else if script[0].Sends() then Outcomes(script[1..], AfterSend(c, script[0]))
    else
      var (outcome, queue) := AfterReceive(c.queue, script[0]);
      var (rest, end) := Outcomes(script[1..], c.(queue := queue));
      ([outcome] + rest, end)
  }

  /** The messages that the sends of a conversation make: parts sent open belong to the next send that is not. */
  function Fused(script: seq<Operation>, open: Message): seq<Message> {
    if script == [] then []
    else if !script[0].Sends() || Refused(open, script[0]) then Fused(script[1..], open)
    else if script[0].Opens() then Fused(script[1..], open + script[0].parts)
    else [open + script[0].parts] + Fused(script[1..], [])
  }

  /** Parts that were cut off the first message, put back. */
  function PutBack(cut: Message, queue: seq<Message>): seq<Message> {
    if cut == [] || queue == [] then queue else [cut + queue[0]] + queue[1..]
  }

  /**
    What was received and then what is left, with the parts of receives that threw put back in
    front of the next message.
   */
  function Rejoined(outcomes: seq<Outcome>, cut: Message, left: seq<Message>): seq<Message> {
    if outcomes == [] then PutBack(cut, left)
    else
      match outcomes[0]
      case Got(message) => [cut + message] + Rejoined(outcomes[1..], [], left)
      case Nothing => Rejoined(outcomes[1..], cut, left)
      case Threw(parts) => Rejoined(outcomes[1..], cut + parts, left)
  }

  lemma RejoinedCons(outcome: Outcome, outcomes: seq<Outcome>, cut: Message, left: seq<Message>)
    ensures Rejoined([outcome] + outcomes, cut, left) ==
            if outcome.Got? then [cut + outcome.message] + Rejoined(outcomes, [], left)
            else Rejoined(outcomes, if outcome.Threw? then cut + outcome.parts else cut, left)
  {
    assert ([outcome] + outcomes)[1..] == outcomes;
  }

  lemma OneReceive(queue: seq<Message>, operation: Operation, cut: Message)
    requires !operation.Sends() && (cut != [] ==> queue != [])
    ensures var (outcome, queue') := AfterReceive(queue, operation);
            && (outcome.Got? ==> PutBack(cut, queue) == [cut + outcome.message] + queue')
            && (outcome.Nothing? ==> queue' == queue == [])
            && (outcome.Threw? ==>
                  && PutBack(cut + outcome.parts, queue') == PutBack(cut, queue)
                  && (cut + outcome.parts != [] ==> queue' != []))
  {
    var (outcome, queue') := AfterReceive(queue, operation);
    if outcome.Threw? {
      if operation.n == 0 {
        assert cut + [] == cut;
      } else {
        assert cut + outcome.parts + queue'[0] == cut + queue[0];
        assert queue'[1..] == queue[1..] && queue == [queue[0]] + queue[1..];
        assert [] + queue[0] == queue[0];
      }
    } else if outcome.Got? && cut == [] {
      assert [] + queue[0] == queue[0];
    }
  }

  /** Nothing is lost, made up or reordered between the sends and the receives of any conversation. */
  lemma {:induction false} NothingLost(script: seq<Operation>, c: Channel, cut: Message)
    requires cut != [] ==> c.queue != []
    ensures var (outcomes, end) := Outcomes(script, c);
            Rejoined(outcomes, cut, end.queue) == PutBack(cut, c.queue) + Fused(script, c.open)
    decreases |script|
  {
    hide AfterReceive, Rejoined;
    if script == [] {
      RejoinedNothing(cut, c.queue);
      assert PutBack(cut, c.queue) + [] == PutBack(cut, c.queue);
    } else if script[0].Sends() {
      var c' := AfterSend(c, script[0]);
      NothingLost(script[1..], c', cut);
      if !Refused(c.open, script[0]) && !script[0].Opens() {
        var message := c.open + script[0].parts;
        assert PutBack(cut, c.queue + [message]) == PutBack(cut, c.queue) + [message];
        assert PutBack(cut, c'.queue) + Fused(script[1..], [])
               == PutBack(cut, c.queue) + ([message] + Fused(script[1..], []));
      }
    } else {
      var (outcome, queue) := AfterReceive(c.queue, script[0]);
      var (outcomes, end) := Outcomes(script[1..], c.(queue := queue));
      OneReceive(c.queue, script[0], cut);
      RejoinedCons(outcome, outcomes, cut, end.queue);
      var cut' := if outcome.Got? then [] else if outcome.Threw? then cut + outcome.parts else cut;
      NothingLost(script[1..], c.(queue := queue), cut');
    }
  }

  lemma RejoinedNothing(cut: Message, left: seq<Message>)
    ensures Rejoined([], cut, left) == PutBack(cut, left)
  {
  }

  /** Both functions or both methods, with room: the messages are those that were sent. */
  lemma {:induction false} WholeMessagesKept(script: seq<Operation>)
    requires forall i :: 0 <= i < |script| ==>
               script[i].Sends() && script[i].parts != [] && !script[i].Opens() && script[i].room
    ensures Fused(script, []) == seq(|script|, i requires 0 <= i < |script| && script[i].Sends() => script[i].parts)
    decreases |script|
  {
    if script != [] {
      WholeMessagesKept(script[1..]);
      assert [] + script[0].parts == script[0].parts;
    }
  }

  /** The first message with its first parts taken off. */
  lemma {:induction false} CutFirst(ready: seq<Frame>, n: nat)
    requires ready != [] && Complete(ready) && n < FirstLength(ready)
    ensures Complete(ready[n..]) && FirstLength(ready[n..]) == FirstLength(ready) - n
    decreases n
  {
    if n > 0 {
      CutFirst(ready[1..], n - 1);
      assert ready[1..][n - 1..] == ready[n..];
    }
  }

  /** What a receive does to the frames is what it does to the messages. */
  lemma FirstReceived(ready: seq<Frame>)
    requires ready != [] && Complete(ready)
    ensures var n, messages := FirstLength(ready), Messages(ready);
            && messages != [] && Data(ready[..n]) == messages[0] && |messages[0]| == n
            && Messages(ready[n..]) == messages[1..]
  {
    ReceiveTakesFirst(ready);
  }

  lemma DataSplits(frames: seq<Frame>, n: nat)
    requires n <= |frames|
    ensures Data(frames)[..n] == Data(frames[..n]) && Data(frames)[n..] == Data(frames[n..])
  {
  }

  lemma PartsReceived(ready: seq<Frame>, n: nat)
    requires ready != [] && Complete(ready) && n < FirstLength(ready)
    ensures var messages := Messages(ready);
            && messages != [] && Complete(ready[n..]) && Data(ready[..n]) == messages[0][..n]
            && Messages(ready[n..]) == [messages[0][n..]] + messages[1..]
  {
    hide Messages, FirstLength, Data;
    var m := FirstLength(ready);
    FirstReceived(ready);
    CutFirst(ready, n);
    ReceiveTakesFirst(ready[n..]);
    DataSplits(ready[..m], n);
    assert ready[n..][m - n..] == ready[m..];
    assert ready[n..][..m - n] == ready[..m][n..] && ready[..n] == ready[..m][..n];
  }

  /** The frames on the wire stand for the channel. */
  ghost predicate Carries(s: Pipe, c: Channel)
    reads s
  {
    s.Valid() && s.pending == FramesOf(c.open, true) && Messages(s.ready) == c.queue
  }

  lemma Closing(before: seq<Frame>, open: Message, parts: Message)
    requires Complete(before) && parts != []
    ensures var ready := before + FramesOf(open, true) + FramesOf(parts, false);
            Complete(ready) && Messages(ready) == Messages(before) + [open + parts]
  {
    hide Messages, FirstLength;
    var frames := FramesOf(open + parts, false);
    FramesFuse(open, parts, false);
    assert before + FramesOf(open, true) + FramesOf(parts, false) == before + frames;
    NoMessages();
    MessagesFirst(open + parts, []);
    assert frames + [] == frames;
    MessagesConcat(before, frames);
  }

  method PerformSend(s: Pipe, operation: Operation, ghost c: Channel)
    requires Carries(s, c) && operation.Sends()
    modifies s
    ensures Carries(s, AfterSend(c, operation))
  {
    hide Messages, FirstLength, Data;
    var parts := operation.parts;
    ghost var before := s.ready;
    if parts != [] {
      Closing(before, c.open, parts);
      FramesFuse(c.open, parts, true);
    }
    if operation.SendParts? {
      var _ := SendMultipart(s, parts, operation.sndmore, operation.room);
    } else {
      var multipart := new Multipart(parts);
      var _ := multipart.Send(s, operation.room);
    }
  }

  method PerformReceive(s: Pipe, operation: Operation, ghost c: Channel) returns (outcome: Outcome)
    requires Carries(s, c) && !operation.Sends()
    modifies s
    ensures outcome == AfterReceive(c.queue, operation).0
    ensures Carries(s, c.(queue := AfterReceive(c.queue, operation).1))
  {
    hide Messages, FirstLength, Data, FramesOf;
    NoMessages();
    if s.ready != [] {
      FirstReceived(s.ready);
    }
    match operation {
      case RecvObject =>
        var multipart := new Multipart([]);
        var received := multipart.Recv(s);
        outcome := if received then Got(multipart.parts) else Nothing;
      case RecvParts =>
        var out, r := RecvMultipartN(s, false, 0);
        outcome := if r.Again? then Nothing else Got(out);
      case RecvAtMost(n) =>
        outcome := PerformLimited(s, n, c);
    }
  }

  method PerformLimited(s: Pipe, n: nat, ghost c: Channel) returns (outcome: Outcome)
    requires Carries(s, c)
    modifies s
    ensures outcome == AfterReceive(c.queue, RecvAtMost(n)).0
    ensures Carries(s, c.(queue := AfterReceive(c.queue, RecvAtMost(n)).1))
  {
    hide Messages, FirstLength, Data, FramesOf;
    NoMessages();
    if s.ready != [] {
      FirstReceived(s.ready);
      if n < FirstLength(s.ready) {
        PartsReceived(s.ready, n);
      }
    }
    ghost var before := s.ready;
    assert before[0..] == before;
    var out, r := RecvMultipartN(s, true, n);
    outcome := if r.TooManyParts? then Threw(out) else if r.Again? then Nothing else Got(out);
  }

  /**
    Any conversation over one connection, with both ways of sending and all ways of receiving
    in any order, and then receiving until nothing is left.
   */
  method Exchange(script: seq<Operation>) returns (received: seq<Outcome>, left: seq<Message>)
    ensures received == Outcomes(script, QUIET).0
    ensures Rejoined(received, [], left) == Fused(script, [])
  {
    hide Messages, FirstLength, FramesOf, AfterSend, AfterReceive, Rejoined, Fused;
    var s := new Pipe();
    ghost var c := QUIET;
    NoMessages();
    NothingSent();
    received, left := [], [];
    assert script[0..] == script && received + Outcomes(script, QUIET).0 == Outcomes(script, QUIET).0;
    for i := 0 to |script|
      invariant Carries(s, c)
      invariant Outcomes(script, QUIET) == (received + Outcomes(script[i..], c).0, Outcomes(script[i..], c).1)
    {
      assert script[i..][1..] == script[i + 1..];
      if script[i].Sends() {
        PerformSend(s, script[i], c);
        c := AfterSend(c, script[i]);
      } else {
        var outcome := PerformReceive(s, script[i], c);
        c := c.(queue := AfterReceive(c.queue, script[i]).1);
        ghost var rest := Outcomes(script[i + 1..], c).0;
        assert received + ([outcome] + rest) == received + [outcome] + rest;
        received := received + [outcome];
      }
    }
    assert script[|script|..] == [] && received + [] == received;
    NothingLost(script, QUIET, []);
    left := Drain(s);
  }

  lemma NothingSent()
    ensures FramesOf([], true) == [] && PutBack([], []) == []
  {
  }

  method Drain(s: Pipe) returns (left: seq<Message>)
    requires s.Valid()
    modifies s
    ensures s.Valid() && left == Messages(old(s.ready))
  {
    hide Messages, FirstLength, Data;
    left := [];
    NoMessages();
    while s.ready != []
      invariant s.Valid()
      invariant left + Messages(s.ready) == Messages(old(s.ready))
      decreases |s.ready|
    {
      ReceiveTakesFirst(s.ready);
      var out, r := RecvMultipartN(s, false, 0);
      left := left + [out];
    }
  }
}
