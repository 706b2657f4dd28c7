/** Runs of TcpCalls that show its guarantee to be exact: one more session ID and a call returns the reply to
    another's request; and what a call can get back at all. */
module TcpCallRuns {
  import opened Bytes
  import opened SomeIp
  import opened Results
  import opened TcpCalls

  // ---------------------------------------------------------------- the bound is exact

  ghost predicate Leads(server: Server, steps: seq<Step>, s: Net) {
    Possible(server, START, steps) && After(server, START, steps) == s
  }

  lemma {:induction false} AppendStep(server: Server, s: Net, steps: seq<Step>, e: Step)
    requires Possible(server, s, steps) && Enabled(After(server, s, steps), e)
    ensures Possible(server, s, steps + [e])
    ensures After(server, s, steps + [e]) == Apply(server, After(server, s, steps), e)
    decreases |steps|
  {
    hide Enabled, Apply;
    if steps == [] {
      var s' := Apply(server, s, e);
      assert [e][1..] == [] && [] + [e] == [e];
      assert Possible(server, s', []);
    } else {
      AppendStep(server, Apply(server, s, steps[0]), steps[1..], e);
      assert (steps + [e])[1..] == steps[1..] + [e];
    }
  }

  lemma Then(server: Server, steps: seq<Step>, s: Net, e: Step) returns (more: seq<Step>, t: Net)
    requires Leads(server, steps, s) && Enabled(s, e)
    ensures Leads(server, more, t) && t == Apply(server, s, e)
  {
    hide Enabled, Apply;
    AppendStep(server, START, steps, e);
    more, t := steps + [e], Apply(server, s, e);
  }

  /** n fire-and-forget calls that have drawn their session ID and not been sent yet. */
  lemma {:induction false} DrawMany(server: Server, steps: seq<Step>, s: Net, n: nat)
    returns (more: seq<Step>, t: Net)
    requires Leads(server, steps, s)
    ensures Leads(server, more, t)
    ensures t == s.(client := s.client.(draws := s.client.draws + n, unsent := t.client.unsent))
  {
    hide Leads, Request;
    if n == 0 {
      more, t := steps, s;
    } else {
      more, t := DrawMany(server, steps, s, n - 1);
      more, t := Then(server, more, t, DrawForNoReturn(0, []));
    }
  }

  /** A run that draws at most n session IDs stays within n. */
  lemma {:induction false} FewDraws(server: Server, s: Net, steps: seq<Step>, n: int)
    requires Possible(server, s, steps) && Once(s) && After(server, s, steps).client.draws <= n
    ensures AlwaysWithin(server, s, steps, n) && s.client.draws <= n
    decreases |steps|
  {
    if steps != [] {
      hide Apply, Enabled;
      StepKeepsOnce(server, s, steps[0]);
      FewDraws(server, Apply(server, s, steps[0]), steps[1..], n);
    }
    forall d: nat | Outstanding(s, d) ensures s.client.draws < d + n {
      assert Used(s, d);
    }
  }

  /** Call d draws, registers and sends. */
  lemma CallSent(server: Server, steps: seq<Step>, s: Net, d: nat, methodID: uint16)
    returns (more: seq<Step>, t: Net)
    requires Leads(server, steps, s) && s.client.draws + 1 == d
    ensures Leads(server, more, t)
    ensures t.client.draws == d && InPhase(t, d, Waiting) && t.client.live[d].inbox == None
    ensures Session(d) in t.client.pending && t.client.pending[Session(d)] == d
    ensures t.client.held == s.client.held && t.toClient == s.toClient
    ensures d in t.past.requests && t.past.requests[d].methodID == methodID
    ensures t.toServer == s.toServer + [Tagged(d, Request(server.serviceID, d, methodID, MSG_REQUEST, []))]
  {
    hide Leads, Session;
    more, t := Then(server, steps, s, DrawForCall(methodID, []));
    more, t := Then(server, more, t, Register(d));
    more, t := Then(server, more, t, Send(d));
  }

  /** The server answers the first message on the connection. */
  lemma FirstIsHandled(server: Server, steps: seq<Step>, s: Net, h: Handling, reply: Message)
    returns (more: seq<Step>, t: Net)
    requires Leads(server, steps, s) && s.toServer != [] && s.toClient == []
    requires Reply(server, s.toServer[0].msg, h) == Some(reply)
    ensures Leads(server, more, t) && t.client == s.client && t.past.requests == s.past.requests
    ensures t.toClient == [Tagged(s.toServer[0].draw, reply)]
    ensures t.past.handled == s.past.handled[s.toServer[0].draw := h]
  {
    hide Leads, Reply;
    more, t := Then(server, steps, s, ServerRead);
    more, t := Then(server, more, t, ServerReply(s.toServer[0].draw, h));
  }

  /** The call that owns a reply's session ID returns the reply. */
  lemma ReplyIsReturned(server: Server, steps: seq<Step>, s: Net, reply: Tagged, d: nat)
    returns (more: seq<Step>, t: Net)
    requires Leads(server, steps, s) && s.toClient == [reply] && s.client.held == None
    requires InPhase(s, d, Waiting) && s.client.live[d].inbox == None
    requires reply.msg.sessionID in s.client.pending && s.client.pending[reply.msg.sessionID] == d
    ensures Leads(server, more, t) && t.client.draws == s.client.draws && t.past == s.past
    ensures d in t.returned && t.returned[d] == reply
  {
    hide Leads, Session;
    more, t := Then(server, steps, s, LookUp);
    more, t := Then(server, more, t, Deliver);
    more, t := Then(server, more, t, TakeReply(d));
    more, t := Then(server, more, t, Cleanup(d));
  }

  /** With one more draw the guarantee is lost: the 65537th call takes over the session ID of the first and
      returns the reply to the first one's request, which was for another method. */
  lemma ForeignReply(server: Server) returns (steps: seq<Step>)
    ensures Possible(server, START, steps)
    ensures AlwaysWithin(server, START, steps, 65537)
    ensures var t, d := After(server, START, steps), 65537;
      && d in t.returned && t.returned[d].draw == 1
      && d in t.past.requests && t.returned[d].msg.methodID != t.past.requests[d].methodID
  {
    hide Reply, AlwaysWithin, Apply, Enabled;
    var s: Net;
    var d, first := SESSIONS + 1, Request(server.serviceID, 1, 1, MSG_REQUEST, []);
    steps := [];
    steps, s := CallSent(server, steps, START, 1, 1);
    steps, s := DrawMany(server, steps, s, SESSIONS - 1);
    steps, s := CallSent(server, steps, s, d, 2);
    var reply := ReplyOf(server, first, NoHandler);
    steps, s := FirstIsHandled(server, steps, s, NoHandler, reply);
    steps, s := ReplyIsReturned(server, steps, s, Tagged(1, reply), d);
    InvAtStart(server);
    FewDraws(server, START, steps, d);
  }

  lemma ReplyOf(server: Server, req: Message, h: Handling) returns (reply: Message)
    requires req.messageType == MSG_REQUEST
    ensures Reply(server, req, h) == Some(reply)
    ensures reply.methodID == req.methodID && reply.sessionID == req.sessionID
  {
    reply := Reply(server, req, h).value;
  }

  /** Correlation holds on every run that draws fewer than n session IDs while one is outstanding, exactly
      when n is at most 65536. */
  lemma CorrelatedIffWithin(server: Server, n: int)
    ensures
      (forall steps | Possible(server, START, steps) && AlwaysWithin(server, START, steps, n) ::
        Correlated(server, After(server, START, steps))) <==>
      n <= 65536
  {
    hide Correlated, AlwaysWithin;
    if n <= SESSIONS {
      forall steps | Possible(server, START, steps) && AlwaysWithin(server, START, steps, n)
        ensures Correlated(server, After(server, START, steps))
      {
        WiderWindow(server, START, steps, n, SESSIONS);
        CallsAreCorrelated(server, steps);
      }
    } else {
      var steps := ForeignReply(server);
      WiderWindow(server, START, steps, SESSIONS + 1, n);
      NotCorrelated(server, After(server, START, steps), SESSIONS + 1);
    }
  }

  lemma NotCorrelated(server: Server, s: Net, d: nat)
    requires d in s.returned && s.returned[d].draw != d
    ensures !Correlated(server, s)
  {
  }

  lemma {:induction false} WiderWindow(server: Server, s: Net, steps: seq<Step>, n: int, m: int)
    requires Possible(server, s, steps) && AlwaysWithin(server, s, steps, n) && n <= m
    ensures AlwaysWithin(server, s, steps, m)
    decreases |steps|
  {
    hide Apply, Enabled, Outstanding;
    if steps != [] {
      WiderWindow(server, Apply(server, s, steps[0]), steps[1..], n, m);
    }
  }

  // ---------------------------------------------------------------- what a call can get back

  /** Session IDs drawn by the steps. */
  function Draws(steps: seq<Step>): nat {
    if steps == [] then 0
    else Draws(steps[1..]) + if steps[0].DrawForCall? || steps[0].DrawForNoReturn? then 1 else 0
  }

  /** Step i is the call that made draw number d, counted from `before`. */
  ghost predicate CallOfDraw(steps: seq<Step>, i: int, before: nat, d: nat) {
    0 <= i < |steps| && steps[i].DrawForCall? && before + Draws(steps[..i + 1]) == d
  }

  /** Each request on record is the one of the call that drew its number: REQUEST, client ID 1, that number
      modulo 65536 as session ID, and the method and payload of the call. */
  lemma {:induction false} RequestContents(server: Server, s: Net, steps: seq<Step>, d: nat) returns (i: int)
    requires Possible(server, s, steps) && d in After(server, s, steps).past.requests && d !in s.past.requests
    ensures CallOfDraw(steps, i, s.client.draws, d)
    ensures After(server, s, steps).past.requests[d] ==
      Message(server.serviceID, steps[i].methodID, 1, d % 65536, 1, 0, 0x00, 0x00, steps[i].payload)
    decreases |steps|
  {
    var s' := Apply(server, s, steps[0]);
    var rest := steps[1..];
    OneRequest(server, s, steps[0], d);
    if d in s'.past.requests {
      i := 0;
      assert steps[..1][1..] == [] && Draws(steps[..1]) == 1;
      RequestStays(server, s', rest, d);
    } else {
      hide Apply, Enabled;
      var j := RequestContents(server, s', rest, d);
      i := j + 1;
      assert steps[..i + 1][1..] == rest[..j + 1];
    }
  }

  lemma OneRequest(server: Server, s: Net, e: Step, d: nat)
    requires Enabled(s, e)
    ensures var s' := Apply(server, s, e);
      && s'.client.draws == s.client.draws + (if e.DrawForCall? || e.DrawForNoReturn? then 1 else 0)
      && (d in s'.past.requests && d !in s.past.requests ==>
            e.DrawForCall? && d == s'.client.draws &&
            s'.past.requests[d] == Message(server.serviceID, e.methodID, 1, d % 65536, 1, 0, 0x00, 0x00, e.payload))
  {
  }

  lemma {:induction false} RequestStays(server: Server, s: Net, steps: seq<Step>, d: nat)
    requires Possible(server, s, steps) && d in s.past.requests
    requires s.past.requests[d].sessionID == d % 65536 && d <= s.client.draws
    ensures d in After(server, s, steps).past.requests
    ensures After(server, s, steps).past.requests[d] == s.past.requests[d]
    decreases |steps|
  {
    if steps != [] {
      RequestStays(server, Apply(server, s, steps[0]), steps[1..], d);
    }
  }

  /** What goes over the connection: a call sends its recorded request; a fire-and-forget call sends, under
      the number it drew, its own method and payload as type 0x01. */
  lemma SentMessages(server: Server, s: Net, e: Step)
    requires Enabled(s, e)
    ensures var t := Apply(server, s, e);
      match e
      case DrawForNoReturn(methodID, payload) =>
        var d := s.client.draws + 1;
        t.client.unsent == s.client.unsent[d :=
          Message(server.serviceID, methodID, 1, d % 65536, 1, 0, 0x01, 0x00, payload)]
      case SendNoReturn(d) => t.toServer == s.toServer + [Tagged(d, s.client.unsent[d])]
      case Send(d) => t.toServer == s.toServer + [Tagged(d, s.past.requests[d])]
      case _ => |t.toServer| <= |s.toServer|
  {
  }

  /** What a call returns: the reply in its channel if it takes one, and nothing if it gives up or cannot send. */
  lemma ReturnSteps(server: Server, s: Net, d: nat)
    ensures Enabled(s, TakeReply(d)) ==>
      var t := Apply(server, s, TakeReply(d));
      Apply(server, t, Cleanup(d)).returned == s.returned[d := s.client.live[d].inbox.value]
    ensures Enabled(s, GiveUp(d)) ==>
      Apply(server, Apply(server, s, GiveUp(d)), Cleanup(d)).returned == s.returned
    ensures Enabled(s, SendFails(d)) ==>
      Apply(server, Apply(server, s, SendFails(d)), Cleanup(d)).returned == s.returned
  {
  }

  /** A reply whose channel is full, or that no call waits for, is dropped. */
  lemma DropSteps(server: Server, s: Net, d: nat)
    ensures Enabled(s, Deliver) && d in s.client.live && s.client.live[d].inbox.Some? ==>
      Apply(server, s, Deliver).client.live[d] == s.client.live[d]
    ensures Enabled(s, LookUp) && s.toClient[0].msg.sessionID !in s.client.pending ==>
      Apply(server, s, LookUp) == s.(toClient := s.toClient[1..])
  {
  }

  /** What a call gets back: the fields of its own request, and the outcome of the one handling of it. A server
      of another version than 0 rejects every call, because the client never sets an interface version. */
  lemma ReturnedContents(server: Server, steps: seq<Step>, d: nat)
    requires Possible(server, START, steps) && AlwaysWithin(server, START, steps, 65536)
    requires d in After(server, START, steps).returned
    ensures var t := After(server, START, steps);
      && d in t.past.requests && d in t.past.handled
      && var req, reply := t.past.requests[d], t.returned[d].msg;
      && reply.serviceID == server.serviceID && reply.methodID == req.methodID
      && reply.clientID == req.clientID && reply.sessionID == req.sessionID == d % 65536
      && reply.protocolVersion == 1 && reply.interfaceVersion == server.interfaceVersion
      && if server.interfaceVersion != 0
         then reply.messageType == 0x81 && reply.returnCode == 0x08 && reply.payload == []
         else
           match t.past.handled[d]
           case NoHandler => reply.messageType == 0x81 && reply.returnCode == 0x03 && reply.payload == []
           case HandlerFailed => reply.messageType == 0x81 && reply.returnCode == 0x01 && reply.payload == []
           case HandlerReturned(p) => reply.messageType == 0x80 && reply.returnCode == 0x00 && reply.payload == p
  {
    hide AlwaysWithin, Possible, Once, Within;
    InvAtStart(server);
    RunKeepsInv(server, START, steps, SESSIONS);
    var s := After(server, START, steps);
    assert GoodReply(server, s.past, s.returned[d]);
    assert OwnRequest(d, s.past.requests[d]);
  }

  /** Call d gets back what its handler returned. */
  ghost predicate ReturnsHandlerResult(server: Server, steps: seq<Step>, d: nat, payload: seq<byte>) {
    && Possible(server, START, steps) && AlwaysWithin(server, START, steps, 65536)
    && var t := After(server, START, steps);
    && d in t.returned && d in t.past.handled && t.past.handled[d] == HandlerReturned(payload)
    && t.returned[d].msg.messageType == 0x80 && t.returned[d].msg.payload == payload
  }

  /** A call can get a handler's result, whatever that is, exactly if the server serves version 0. */
  lemma AnsweredOnlyByVersionZero(server: Server, payload: seq<byte>)
    ensures (exists steps, d: nat :: ReturnsHandlerResult(server, steps, d, payload)) <==> server.interfaceVersion == 0
  {
    if server.interfaceVersion == 0 {
      HandlerResult(server, payload);
    } else {
      hide AlwaysWithin, Possible;
      forall steps, d: nat ensures !ReturnsHandlerResult(server, steps, d, payload) {
        if ReturnsHandlerResult(server, steps, d, payload) {
          ReturnedContents(server, steps, d);
        }
      }
    }
  }

  lemma HandlerResult(server: Server, payload: seq<byte>)
    requires server.interfaceVersion == 0
    ensures exists steps, d: nat :: ReturnsHandlerResult(server, steps, d, payload)
  {
    hide AlwaysWithin, Apply, Enabled;
    var h := HandlerReturned(payload);
    var steps, s := CallSent(server, [], START, 1, 1);
    var reply := Reply(server, s.toServer[0].msg, h).value;
    steps, s := FirstIsHandled(server, steps, s, h, reply);
    assert 1 in s.past.handled && s.past.handled[1] == h;
    steps, s := ReplyIsReturned(server, steps, s, Tagged(1, reply), 1);
    InvAtStart(server);
    FewDraws(server, START, steps, SESSIONS);
    assert ReturnsHandlerResult(server, steps, 1, payload);
  }
}
