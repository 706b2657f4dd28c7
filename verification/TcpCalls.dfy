/** Concurrent calls over one TCP connection (tcp/tcp.go): Call, CallNoReturn, the server's handlers and
    readLoop as atomic steps in any interleaving. Calls are told apart by the number of the session draw
    they made. The tags that carry this number alongside messages, and the record of past requests and
    handlings, are history: no step depends on them. */
module TcpCalls {
  import opened Bytes
  import opened SomeIp
  import opened Results

  const SESSIONS: int := 0x1_0000

  /** The 16-bit session ID of draw number d. */
  function Session(d: nat): uint16 {
    d % SESSIONS
  }

  datatype Tagged = Tagged(draw: nat, msg: Message)

  datatype Phase = Drawn | Registered | Waiting | Leaving(result: Option<Tagged>)

  /** A Call in progress; `inbox` is its channel of capacity one. */
  datatype Call = Call(phase: Phase, inbox: Option<Tagged>)

  datatype Client = Client(
    draws: nat,
    live: map<nat, Call>,
    pending: map<uint16, nat>,
    unsent: map<nat, Message>,
    held: Option<(Tagged, nat)>)

  /** What looking up and running the handler came to. */
  datatype Handling = NoHandler | HandlerFailed | HandlerReturned(payload: seq<byte>)

  /** The request of each call, and how the server handled each request it has dealt with. */
  datatype Past = Past(requests: map<nat, Message>, handled: map<nat, Handling>)

  datatype Net = Net(
    client: Client,
    toServer: seq<Tagged>,
    serving: map<nat, Message>,
    toClient: seq<Tagged>,
    past: Past,
    returned: map<nat, Tagged>)

  const START := Net(Client(0, map[], map[], map[], None), [], map[], [], Past(map[], map[]), map[])

  // ---------------------------------------------------------------- server

  datatype Server = Server(serviceID: uint16, interfaceVersion: byte)

  /** handleMessage: the reply written for a request, if any. */
  function Reply(server: Server, req: Message, h: Handling): Option<Message> {
    var resp := Message(server.serviceID, req.methodID, req.clientID, req.sessionID, 0x01,
                        server.interfaceVersion, MSG_REQUEST, RET_OK, []);
    if req.messageType == MSG_REQUEST_NO_RETURN then None
    else if req.interfaceVersion != server.interfaceVersion then
      Some(resp.(messageType := MSG_ERROR, returnCode := RET_WRONG_INTERFACE_VERSION))
    else
      match h
      case NoHandler => Some(resp.(messageType := MSG_ERROR, returnCode := RET_UNKNOWN_METHOD))
      case HandlerFailed => Some(resp.(messageType := MSG_ERROR, returnCode := RET_NOT_OK))
      case HandlerReturned(payload) =>
        Some(resp.(messageType := MSG_RESPONSE, returnCode := RET_OK, payload := payload))
  }

  function Request(serviceID: uint16, d: nat, methodID: uint16, messageType: byte, payload: seq<byte>): Message {
    Message(serviceID, methodID, 0x0001, Session(d), 0x01, 0, messageType, RET_OK, payload)
  }

  // ---------------------------------------------------------------- steps

  datatype Step =
    | DrawForCall(methodID: uint16, payload: seq<byte>)
    | DrawForNoReturn(methodID: uint16, payload: seq<byte>)
    | SendNoReturn(d: nat)
    | Register(d: nat)
    | Send(d: nat)
    | SendFails(d: nat)
    | TakeReply(d: nat)
    | GiveUp(d: nat)
    | Cleanup(d: nat)
    | ServerRead
    | ServerReply(d: nat, handling: Handling)
    | ServerStaysSilent(d: nat)
    | LookUp
    | Deliver

  predicate InPhase(s: Net, d: nat, phase: Phase) {
    d in s.client.live && s.client.live[d].phase == phase
  }

  predicate Enabled(s: Net, e: Step) {
    match e
    case DrawForCall(_, _) => true
    case DrawForNoReturn(_, _) => true
    case SendNoReturn(d) => d in s.client.unsent
    case Register(d) => InPhase(s, d, Drawn)
    case Send(d) => InPhase(s, d, Registered) && d in s.past.requests
    case SendFails(d) => InPhase(s, d, Registered)
    case TakeReply(d) => InPhase(s, d, Waiting) && s.client.live[d].inbox.Some?
    case GiveUp(d) => InPhase(s, d, Waiting)
    case Cleanup(d) => d in s.client.live && s.client.live[d].phase.Leaving?
    case ServerRead => s.toServer != []
    case ServerReply(d, _) => d in s.serving
    case ServerStaysSilent(d) => d in s.serving
    case LookUp => s.toClient != [] && s.client.held == None
    case Deliver => s.client.held.Some?
  }

  function SetCall(c: Client, d: nat, call: Call): Client {
    c.(live := c.live[d := call])
  }

  function Apply(server: Server, s: Net, e: Step): Net
    requires Enabled(s, e)
  {
    var c := s.client;
    match e
    case DrawForCall(methodID, payload) =>
      var d := c.draws + 1;
      var req := Request(server.serviceID, d, methodID, MSG_REQUEST, payload);
      s.(client := SetCall(c.(draws := d), d, Call(Drawn, None)),
         past := s.past.(requests := s.past.requests[d := req]))
    case DrawForNoReturn(methodID, payload) =>
      var d := c.draws + 1;
      var req := Request(server.serviceID, d, methodID, MSG_REQUEST_NO_RETURN, payload);
      s.(client := c.(draws := d, unsent := c.unsent[d := req]))
    case SendNoReturn(d) =>
      s.(client := c.(unsent := c.unsent - {d}), toServer := s.toServer + [Tagged(d, c.unsent[d])])
    case Register(d) =>
      s.(client := SetCall(c.(pending := c.pending[Session(d) := d]), d, c.live[d].(phase := Registered)))
    case Send(d) =>
      s.(client := SetCall(c, d, c.live[d].(phase := Waiting)),
         toServer := s.toServer + [Tagged(d, s.past.requests[d])])
    case SendFails(d) =>
      s.(client := SetCall(c, d, c.live[d].(phase := Leaving(None))))
    case TakeReply(d) =>
      s.(client := SetCall(c, d, Call(Leaving(c.live[d].inbox), None)))
    case GiveUp(d) =>
      s.(client := SetCall(c, d, c.live[d].(phase := Leaving(None))))
    case Cleanup(d) =>
      var result := c.live[d].phase.result;
      s.(client := c.(pending := c.pending - {Session(d)}, live := c.live - {d}),
         returned := if result.Some? then s.returned[d := result.value] else s.returned)
    case ServerRead =>
      s.(toServer := s.toServer[1..], serving := s.serving[s.toServer[0].draw := s.toServer[0].msg])
    case ServerReply(d, handling) =>
      var reply := Reply(server, s.serving[d], handling);
      s.(serving := s.serving - {d},
         past := s.past.(handled := s.past.handled[d := handling]),
         toClient := if reply.Some? then s.toClient + [Tagged(d, reply.value)] else s.toClient)
    case ServerStaysSilent(d) =>
      s.(serving := s.serving - {d})
    case LookUp =>
      var reply := s.toClient[0];
      s.(toClient := s.toClient[1..],
         client := if reply.msg.sessionID in c.pending
                   then c.(held := Some((reply, c.pending[reply.msg.sessionID]))) else c)
    case Deliver =>
      var (reply, d) := c.held.value;
      var c1 := c.(held := None);
      s.(client := if d in c.live && c.live[d].inbox == None
                   then SetCall(c1, d, c.live[d].(inbox := Some(reply))) else c1)
  }

  // ---------------------------------------------------------------- the assumption and the guarantee

  ghost predicate InQueue(queue: seq<Tagged>, d: nat) {
    exists t | t in queue :: t.draw == d
  }

  /** Draw d is still in use: its call is running, or its request or its reply is under way. */
  ghost predicate Outstanding(s: Net, d: nat) {
    || d in s.client.live
    || InQueue(s.toServer, d)
    || d in s.serving
    || InQueue(s.toClient, d)
    || (s.client.held.Some? && s.client.held.value.0.draw == d)
  }

  /** Fewer than n session IDs have been drawn since any outstanding one was. */
  ghost predicate Within(s: Net, n: int) {
    forall d: nat :: Outstanding(s, d) ==> s.client.draws < d + n
  }

  predicate HasEntry(c: Client, d: nat) {
    d in c.live && !c.live[d].phase.Drawn?
  }

  /** reply is what the server wrote when it handled the request of call d. */
  predicate Answers(server: Server, past: Past, d: nat, reply: Message) {
    d in past.requests && d in past.handled && Reply(server, past.requests[d], past.handled[d]) == Some(reply)
  }

  /** `pending` holds exactly one entry for each registered call, and it is the call's own. */
  ghost predicate OwnEntries(c: Client) {
    && (forall d | HasEntry(c, d) :: Session(d) in c.pending && c.pending[Session(d)] == d)
    && (forall id | id in c.pending :: HasEntry(c, c.pending[id]) && Session(c.pending[id]) == id)
  }

  /** What callers rely on: running calls have distinct session IDs, no call's entry is overwritten or
      deleted by another, and every reply returned was written for the caller's own request. */
  ghost predicate Correlated(server: Server, s: Net) {
    && (forall a, b | a in s.client.live && b in s.client.live && a != b :: Session(a) != Session(b))
    && OwnEntries(s.client)
    && (forall d | d in s.returned :: s.returned[d].draw == d && Answers(server, s.past, d, s.returned[d].msg))
  }

  // ---------------------------------------------------------------- each draw is used once

  /** The request of draw d has been written to the connection. */
  ghost predicate Sent(s: Net, d: nat) {
    InQueue(s.toServer, d) || d in s.serving || d in s.past.handled
  }

  ghost predicate Used(s: Net, d: nat) {
    Outstanding(s, d) || d in s.client.unsent || Sent(s, d)
  }

  ghost predicate DistinctDraws(queue: seq<Tagged>) {
    forall i, j | 0 <= i < j < |queue| :: queue[i].draw != queue[j].draw
  }

  /** A draw is a number between 1 and `draws`, is sent at most once, and is handled at most once. */
  ghost predicate Once(s: Net) {
    && (forall d: nat | Used(s, d) :: 1 <= d <= s.client.draws)
    && (forall d | d in s.client.unsent :: d !in s.client.live && !Sent(s, d))
    && (forall d | d in s.client.live && (s.client.live[d].phase.Drawn? || s.client.live[d].phase.Registered?) ::
          !Sent(s, d))
    && (forall d: nat | InQueue(s.toServer, d) :: d !in s.serving && d !in s.past.handled)
    && (forall d | d in s.serving :: d !in s.past.handled)
    && DistinctDraws(s.toServer)
  }

  lemma QueueAppend(queue: seq<Tagged>, t: Tagged)
    ensures forall d: nat :: InQueue(queue + [t], d) <==> InQueue(queue, d) || d == t.draw
    ensures DistinctDraws(queue) && !InQueue(queue, t.draw) ==> DistinctDraws(queue + [t])
  {
    forall d: nat ensures InQueue(queue + [t], d) <==> InQueue(queue, d) || d == t.draw {
      assert forall u :: u in queue + [t] <==> u in queue || u == t;
    }
    if !InQueue(queue, t.draw) {
      assert forall i | 0 <= i < |queue| :: queue[i] in queue;
    }
  }

  lemma QueueFirst(queue: seq<Tagged>)
    requires queue != []
    ensures forall d: nat :: InQueue(queue, d) <==> InQueue(queue[1..], d) || d == queue[0].draw
    ensures DistinctDraws(queue) ==> DistinctDraws(queue[1..]) && !InQueue(queue[1..], queue[0].draw)
  {
    assert queue == [queue[0]] + queue[1..];
    assert forall t :: t in queue <==> t in queue[1..] || t == queue[0];
    if DistinctDraws(queue) {
      forall t | t in queue[1..] ensures t.draw != queue[0].draw {
        var i :| 0 <= i < |queue| - 1 && queue[1..][i] == t;
        assert queue[i + 1] == t;
      }
    }
  }

  lemma DrawKeepsOnce(server: Server, s: Net, e: Step)
    requires Once(s) && Enabled(s, e) && (e.DrawForCall? || e.DrawForNoReturn?)
    ensures Once(Apply(server, s, e))
  {
    hide Request, Session, InQueue, DistinctDraws;
    var s' := Apply(server, s, e);
    var n := s'.client.draws;
    assert !Used(s, n);
    assert forall d: nat :: Sent(s', d) <==> Sent(s, d);
    forall d: nat | Used(s', d) ensures 1 <= d <= n {
      assert d != n ==> Used(s, d);
    }
  }

  lemma CallKeepsOnce(server: Server, s: Net, e: Step)
    requires Once(s) && Enabled(s, e)
    requires e.Register? || e.SendFails? || e.TakeReply? || e.GiveUp? || e.Cleanup?
    ensures Once(Apply(server, s, e))
  {
    hide Request, Session, InQueue, DistinctDraws;
    var s' := Apply(server, s, e);
    assert forall d: nat :: Sent(s', d) <==> Sent(s, d);
    forall d: nat | Used(s', d) ensures 1 <= d <= s'.client.draws {
      assert Used(s, d);
    }
  }

  lemma SendKeepsOnce(server: Server, s: Net, e: Step)
    requires Once(s) && Enabled(s, e) && (e.Send? || e.SendNoReturn?)
    ensures Once(Apply(server, s, e))
  {
    hide Session, InQueue, DistinctDraws;
    var msg := if e.Send? then s.past.requests[e.d] else s.client.unsent[e.d];
    assert !Sent(s, e.d);
    QueueAppend(s.toServer, Tagged(e.d, msg));
    var s' := Apply(server, s, e);
    assert forall d: nat :: Sent(s', d) <==> Sent(s, d) || d == e.d;
    forall d: nat | Used(s', d) ensures 1 <= d <= s'.client.draws {
      assert Used(s, e.d);
      assert Used(s, d);
    }
  }

  lemma ServerKeepsOnce(server: Server, s: Net, e: Step)
    requires Once(s) && Enabled(s, e) && (e.ServerRead? || e.ServerReply? || e.ServerStaysSilent?)
    ensures Once(Apply(server, s, e))
  {
    hide Reply, InQueue, DistinctDraws;
    var s' := Apply(server, s, e);
    if e.ServerRead? {
      QueueFirst(s.toServer);
    } else if e.ServerReply? && Reply(server, s.serving[e.d], e.handling).Some? {
      QueueAppend(s.toClient, Tagged(e.d, Reply(server, s.serving[e.d], e.handling).value));
    }
    forall d: nat ensures Sent(s', d) ==> Sent(s, d) {
    }
    forall d: nat | Used(s', d) ensures 1 <= d <= s'.client.draws {
      assert e.ServerReply? ==> Used(s, e.d);
      assert Used(s, d);
    }
  }

  lemma ReceiveKeepsOnce(server: Server, s: Net, e: Step)
    requires Once(s) && Enabled(s, e) && (e.LookUp? || e.Deliver?)
    ensures Once(Apply(server, s, e))
  {
    hide InQueue, DistinctDraws;
    var s' := Apply(server, s, e);
    if e.LookUp? {
      QueueFirst(s.toClient);
    }
    forall d: nat ensures Sent(s', d) <==> Sent(s, d) {
    }
    forall d: nat | Used(s', d) ensures 1 <= d <= s'.client.draws {
      assert Used(s, d);
    }
  }

  lemma StepKeepsOnce(server: Server, s: Net, e: Step)
    requires Once(s) && Enabled(s, e)
    ensures Once(Apply(server, s, e))
    ensures Apply(server, s, e).client.draws >= s.client.draws
  {
    hide Once, Request, Reply, Session;
    match e
    case Send(_) => SendKeepsOnce(server, s, e);
    case SendNoReturn(_) => SendKeepsOnce(server, s, e);
    case ServerRead => ServerKeepsOnce(server, s, e);
    case ServerReply(_, _) => ServerKeepsOnce(server, s, e);
    case ServerStaysSilent(_) => ServerKeepsOnce(server, s, e);
    case LookUp => ReceiveKeepsOnce(server, s, e);
    case Deliver => ReceiveKeepsOnce(server, s, e);
    case DrawForCall(_, _) => DrawKeepsOnce(server, s, e);
    case DrawForNoReturn(_, _) => DrawKeepsOnce(server, s, e);
    case _ => CallKeepsOnce(server, s, e);
  }

  // ---------------------------------------------------------------- invariant

  predicate GoodReply(server: Server, past: Past, t: Tagged) {
    Answers(server, past, t.draw, t.msg)
  }

  predicate GoodRequest(past: Past, t: Tagged) {
    t.msg.messageType == MSG_REQUEST_NO_RETURN || (t.draw in past.requests && t.msg == past.requests[t.draw])
  }

  /** Whatever a call has received answers its own request. */
  predicate GoodCall(server: Server, past: Past, d: nat, call: Call) {
    && d in past.requests
    && (call.inbox.Some? ==> call.inbox.value.draw == d && GoodReply(server, past, call.inbox.value))
    && (call.phase.Leaving? && call.phase.result.Some? ==>
          call.phase.result.value.draw == d && GoodReply(server, past, call.phase.result.value))
  }

  /** The client numbers its requests with their draws and never sets an interface version. */
  predicate OwnRequest(d: nat, req: Message) {
    req.sessionID == Session(d) && req.interfaceVersion == 0 && req.messageType == MSG_REQUEST
  }

  ghost predicate GoodClient(server: Server, past: Past, c: Client) {
    && (forall d | d in past.requests :: d <= c.draws && OwnRequest(d, past.requests[d]))
    && (forall d | d in c.live :: GoodCall(server, past, d, c.live[d]))
    && (forall d | d in c.unsent :: c.unsent[d].messageType == MSG_REQUEST_NO_RETURN)
    && (c.held.Some? ==> c.held.value.0.draw == c.held.value.1 && GoodReply(server, past, c.held.value.0))
    && OwnEntries(c)
  }

  ghost predicate Inv(server: Server, s: Net) {
    && GoodClient(server, s.past, s.client)
    && (forall t | t in s.toServer :: GoodRequest(s.past, t))
    && (forall d | d in s.serving :: GoodRequest(s.past, Tagged(d, s.serving[d])))
    && (forall t | t in s.toClient :: GoodReply(server, s.past, t))
    && (forall d | d in s.returned :: s.returned[d].draw == d && GoodReply(server, s.past, s.returned[d]))
  }

  /** Two draws in the same window of 65536 have the same session ID only if they are the same draw. */
  lemma SameDraw(draws: nat, a: nat, b: nat)
    requires a <= draws < a + SESSIONS && b <= draws < b + SESSIONS
    requires Session(a) == Session(b)
    ensures a == b
  {
  }

  lemma ReplyEchoesSession(server: Server, past: Past, t: Tagged)
    requires GoodReply(server, past, t)
    ensures t.msg.sessionID == past.requests[t.draw].sessionID
  {
  }

  lemma DrawKeepsEntries(c: Client, d: nat)
    requires OwnEntries(c) && d !in c.live
    ensures OwnEntries(SetCall(c.(draws := d), d, Call(Drawn, None)))
  {
    forall e ensures HasEntry(SetCall(c.(draws := d), d, Call(Drawn, None)), e) <==> HasEntry(c, e) {
    }
  }

  lemma DrawKeepsInv(server: Server, s: Net, methodID: uint16, payload: seq<byte>)
    requires Inv(server, s)
    ensures Inv(server, Apply(server, s, DrawForCall(methodID, payload)))
  {
    hide OwnEntries, Session, Reply;
    var s' := Apply(server, s, DrawForCall(methodID, payload));
    var d := s'.client.draws;
    assert d !in s.past.requests;
    assert d !in s.client.live by {
      assert d in s.client.live ==> GoodCall(server, s.past, d, s.client.live[d]);
    }
    DrawKeepsEntries(s.client, d);
    assert forall e, reply :: Answers(server, s.past, e, reply) ==> Answers(server, s'.past, e, reply);
    forall e | e in s'.client.live ensures GoodCall(server, s'.past, e, s'.client.live[e]) {
      if e != d {
        assert GoodCall(server, s.past, e, s.client.live[e]);
      }
    }
    assert forall t | t in s'.toClient :: GoodReply(server, s.past, t);
    assert forall e | e in s'.returned :: GoodReply(server, s.past, s'.returned[e]);
  }

  lemma RegisterKeepsInv(server: Server, s: Net, d: nat)
    requires Inv(server, s) && Within(s, SESSIONS) && Enabled(s, Register(d))
    ensures Inv(server, Apply(server, s, Register(d)))
  {
    hide InQueue, Answers, GoodRequest;
    var c, c' := s.client, Apply(server, s, Register(d)).client;
    assert GoodCall(server, s.past, d, c.live[d]);
    assert Outstanding(s, d);
    forall e | HasEntry(c', e) ensures Session(e) in c'.pending && c'.pending[Session(e)] == e {
      if e != d {
        assert HasEntry(c, e);
        if Session(e) == Session(d) {
          assert Outstanding(s, e) && GoodCall(server, s.past, e, c.live[e]);
          SameDraw(c.draws, d, e);
        }
      }
    }
    forall id | id in c'.pending ensures HasEntry(c', c'.pending[id]) && Session(c'.pending[id]) == id {
      if id != Session(d) {
        assert HasEntry(c, c.pending[id]);
      }
    }
  }

  lemma CleanupKeepsInv(server: Server, s: Net, d: nat)
    requires Inv(server, s) && Enabled(s, Cleanup(d))
    ensures Inv(server, Apply(server, s, Cleanup(d)))
  {
    hide Answers, GoodRequest, Session;
    var c, c' := s.client, Apply(server, s, Cleanup(d)).client;
    assert GoodCall(server, s.past, d, c.live[d]);
    assert HasEntry(c, d);
    forall e | HasEntry(c', e) ensures Session(e) in c'.pending && c'.pending[Session(e)] == e {
      assert HasEntry(c, e);
    }
    forall id | id in c'.pending ensures HasEntry(c', c'.pending[id]) && Session(c'.pending[id]) == id {
      assert HasEntry(c, c.pending[id]);
    }
  }

  lemma LookUpKeepsInv(server: Server, s: Net)
    requires Inv(server, s) && Within(s, SESSIONS) && Enabled(s, LookUp)
    ensures Inv(server, Apply(server, s, LookUp))
  {
    hide GoodRequest;
    var c, reply := s.client, s.toClient[0];
    assert reply in s.toClient && GoodReply(server, s.past, reply);
    ReplyEchoesSession(server, s.past, reply);
    if reply.msg.sessionID in c.pending {
      var owner := c.pending[reply.msg.sessionID];
      assert HasEntry(c, owner) && GoodCall(server, s.past, owner, c.live[owner]);
      assert Outstanding(s, owner) && Outstanding(s, reply.draw);
      SameDraw(c.draws, owner, reply.draw);
    }
    var s' := Apply(server, s, LookUp);
    assert forall t | t in s'.toClient :: t in s.toClient;
    assert OwnEntries(s'.client);
  }

  lemma ServerReadKeepsInv(server: Server, s: Net, e: Step)
    requires Inv(server, s) && Enabled(s, e) && (e.ServerRead? || e.ServerStaysSilent?)
    ensures Inv(server, Apply(server, s, e))
  {
    hide GoodClient, Answers, GoodRequest;
    if e.ServerRead? {
      assert s.toServer[0] in s.toServer;
      assert s.toServer[0] == Tagged(s.toServer[0].draw, s.toServer[0].msg);
      assert forall t | t in s.toServer[1..] :: t in s.toServer;
    }
  }

  /** A first handling of d leaves all earlier answers as they are. */
  lemma ServerReplyKeepsInv(server: Server, s: Net, d: nat, h: Handling)
    requires Inv(server, s) && Once(s) && Enabled(s, ServerReply(d, h))
    ensures Inv(server, Apply(server, s, ServerReply(d, h)))
  {
    hide OwnEntries, Session, Reply, InQueue, DistinctDraws;
    var s', req := Apply(server, s, ServerReply(d, h)), s.serving[d];
    assert GoodRequest(s.past, Tagged(d, req));
    NoReturnNoReply(server, req, h);
    assert forall e, reply :: Answers(server, s.past, e, reply) ==> Answers(server, s'.past, e, reply);
    assert forall t | t in s.toClient :: GoodReply(server, s.past, t);
    assert forall e | e in s.returned :: GoodReply(server, s.past, s.returned[e]);
    assert forall e | e in s.client.live :: GoodCall(server, s.past, e, s.client.live[e]);
  }

  lemma NoReturnNoReply(server: Server, req: Message, h: Handling)
    ensures req.messageType == MSG_REQUEST_NO_RETURN ==> Reply(server, req, h) == None
  {
  }

  /** A step that changes one call in place, keeping it registered, and possibly sends something. */
  lemma CallKeepsOwnEntries(c: Client, c': Client, d: nat)
    requires OwnEntries(c) && HasEntry(c, d)
    requires c'.pending == c.pending && c'.live.Keys == c.live.Keys && HasEntry(c', d)
    requires forall e | e in c.live && e != d :: c'.live[e] == c.live[e]
    ensures OwnEntries(c')
  {
    forall e ensures HasEntry(c', e) <==> HasEntry(c, e) {
    }
  }

  lemma ClientKeepsInv(server: Server, s: Net, e: Step)
    requires Inv(server, s) && Enabled(s, e)
    requires e.Send? || e.SendFails? || e.TakeReply? || e.GiveUp?
    ensures Inv(server, Apply(server, s, e))
  {
    hide Answers, OwnEntries, Session, Reply;
    var s' := Apply(server, s, e);
    assert GoodCall(server, s.past, e.d, s.client.live[e.d]);
    CallKeepsOwnEntries(s.client, s'.client, e.d);
    assert GoodCall(server, s.past, e.d, s'.client.live[e.d]);
  }

  lemma DeliverKeepsInv(server: Server, s: Net)
    requires Inv(server, s) && Enabled(s, Deliver)
    ensures Inv(server, Apply(server, s, Deliver))
  {
    hide Answers, GoodRequest, Session;
    var c, c' := s.client, Apply(server, s, Deliver).client;
    var (reply, d) := c.held.value;
    forall e ensures HasEntry(c', e) <==> HasEntry(c, e) {
    }
    assert OwnEntries(c');
    if d in c.live {
      assert GoodCall(server, s.past, d, c.live[d]);
    }
  }

  lemma NoReturnKeepsInv(server: Server, s: Net, e: Step)
    requires Inv(server, s) && Enabled(s, e)
    requires e.DrawForNoReturn? || e.SendNoReturn?
    ensures Inv(server, Apply(server, s, e))
  {
    hide Answers, Session;
    var c' := Apply(server, s, e).client;
    forall d ensures HasEntry(c', d) <==> HasEntry(s.client, d) {
    }
    assert OwnEntries(c');
  }

  lemma StepKeepsInv(server: Server, s: Net, e: Step)
    requires Inv(server, s) && Once(s) && Within(s, SESSIONS) && Enabled(s, e)
    ensures Inv(server, Apply(server, s, e))
  {
    hide Inv, Once, Within, Apply;
    match e
    case DrawForCall(methodID, payload) => DrawKeepsInv(server, s, methodID, payload);
    case Register(d) => RegisterKeepsInv(server, s, d);
    case Cleanup(d) => CleanupKeepsInv(server, s, d);
    case LookUp => LookUpKeepsInv(server, s);
    case Deliver => DeliverKeepsInv(server, s);
    case ServerRead => ServerReadKeepsInv(server, s, e);
    case ServerReply(d, h) => ServerReplyKeepsInv(server, s, d, h);
    case ServerStaysSilent(_) => ServerReadKeepsInv(server, s, e);
    case DrawForNoReturn(_, _) => NoReturnKeepsInv(server, s, e);
    case SendNoReturn(_) => NoReturnKeepsInv(server, s, e);
    case _ => ClientKeepsInv(server, s, e);
  }

  lemma InvCorrelated(server: Server, s: Net)
    requires Inv(server, s) && Within(s, SESSIONS)
    ensures Correlated(server, s)
  {
    hide InQueue, Answers;
    forall a, b | a in s.client.live && b in s.client.live && a != b ensures Session(a) != Session(b) {
      assert GoodCall(server, s.past, a, s.client.live[a]) && GoodCall(server, s.past, b, s.client.live[b]);
      assert Outstanding(s, a) && Outstanding(s, b);
      if Session(a) == Session(b) {
        SameDraw(s.client.draws, a, b);
      }
    }
  }

  // ---------------------------------------------------------------- whole runs

  ghost predicate Possible(server: Server, s: Net, steps: seq<Step>)
    decreases |steps|
  {
    steps != [] ==> Enabled(s, steps[0]) && Possible(server, Apply(server, s, steps[0]), steps[1..])
  }

  ghost function After(server: Server, s: Net, steps: seq<Step>): Net
    requires Possible(server, s, steps)
    decreases |steps|
  {
    if steps == [] then s else After(server, Apply(server, s, steps[0]), steps[1..])
  }

  /** At all times fewer than n session IDs have been drawn since any outstanding one was. */
  ghost predicate AlwaysWithin(server: Server, s: Net, steps: seq<Step>, n: int)
    requires Possible(server, s, steps)
    decreases |steps|
  {
    Within(s, n) && (steps != [] ==> AlwaysWithin(server, Apply(server, s, steps[0]), steps[1..], n))
  }

  lemma {:induction false} RunKeepsInv(server: Server, s: Net, steps: seq<Step>, n: int)
    requires Possible(server, s, steps) && AlwaysWithin(server, s, steps, n) && Inv(server, s) && Once(s)
    requires n <= SESSIONS
    ensures Inv(server, After(server, s, steps)) && Once(After(server, s, steps))
    ensures Within(After(server, s, steps), SESSIONS)
    decreases |steps|
  {
    hide Inv, Once, Apply;
    if steps != [] {
      StepKeepsInv(server, s, steps[0]);
      StepKeepsOnce(server, s, steps[0]);
      RunKeepsInv(server, Apply(server, s, steps[0]), steps[1..], n);
    }
  }

  lemma InvAtStart(server: Server)
    ensures Inv(server, START) && Once(START)
  {
  }

  /** However calls, handlers and the read loop interleave: as long as fewer than 65536 session IDs are
      drawn while a request or its reply is outstanding, every call keeps its own entry and gets the
      server's answer to its own request or none. */
  lemma CallsAreCorrelated(server: Server, steps: seq<Step>)
    requires Possible(server, START, steps) && AlwaysWithin(server, START, steps, 65536)
    ensures Correlated(server, After(server, START, steps))
  {
    hide Inv, Once, Correlated, Within;
    InvAtStart(server);
    RunKeepsInv(server, START, steps, SESSIONS);
    InvCorrelated(server, After(server, START, steps));
  }
}
