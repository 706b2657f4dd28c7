/** Event subscriptions of the UDP client (udp/udp.go): the channel lists under the service's mutex, and
    their interleavings with dispatch and with the closing of subscriptions. */
module UdpSubscriptions {
  import opened Bytes
  import opened SomeIp
  import opened Results
  import Codec
  import SdFormat

  /** Channels are numbered in the order they are made. */
  datatype Chan = Chan(id: nat)

  type Subs = map<uint16, seq<Chan>>

  function ListOf(subs: Subs, event: uint16): seq<Chan> {
    if event in subs then subs[event] else []
  }

  function Without(chans: seq<Chan>, ch: Chan): (r: seq<Chan>)
    ensures ch !in r
    ensures forall c :: c in r ==> c in chans
    ensures forall c | c in chans && c != ch :: c in r
  {
    if chans == [] then []
    else
      var front, last := chans[..|chans| - 1], chans[|chans| - 1];
      if last == ch then Without(front, ch) else Without(front, ch) + [last]
  }

  function Added(subs: Subs, event: uint16, ch: Chan): Subs {
    subs[event := ListOf(subs, event) + [ch]]
  }

  function Removed(subs: Subs, event: uint16, ch: Chan): Subs {
    subs[event := Without(ListOf(subs, event), ch)]
  }

  predicate NoRepeats(chans: seq<Chan>) {
    forall i, j | 0 <= i < j < |chans| :: chans[i] != chans[j]
  }

  lemma {:induction false} WithoutNoRepeats(chans: seq<Chan>, ch: Chan)
    requires NoRepeats(chans)
    ensures NoRepeats(Without(chans, ch))
    decreases |chans|
  {
    if chans != [] {
      var front, last := chans[..|chans| - 1], chans[|chans| - 1];
      WithoutNoRepeats(front, ch);
      assert last !in front;
    }
  }

  /** Every list holds some of the channels made so far, each once. */
  ghost predicate GoodLists(subs: Subs, made: set<Chan>) {
    forall e: uint16 :: NoRepeats(ListOf(subs, e)) && forall c | c in ListOf(subs, e) :: c in made
  }

  lemma AddedGood(subs: Subs, event: uint16, ch: Chan, made: set<Chan>)
    requires GoodLists(subs, made) && ch !in made
    ensures GoodLists(Added(subs, event, ch), made + {ch})
  {
    var t := Added(subs, event, ch);
    forall e: uint16 ensures NoRepeats(ListOf(t, e)) && forall c | c in ListOf(t, e) :: c in made + {ch} {
      assert NoRepeats(ListOf(subs, e));
      assert e == event ==> ListOf(t, e) == ListOf(subs, e) + [ch];
      assert e != event ==> ListOf(t, e) == ListOf(subs, e);
    }
  }

  lemma RemovedGood(subs: Subs, event: uint16, ch: Chan, made: set<Chan>)
    requires GoodLists(subs, made)
    ensures GoodLists(Removed(subs, event, ch), made)
  {
    var t := Removed(subs, event, ch);
    WithoutNoRepeats(ListOf(subs, event), ch);
    forall e: uint16 ensures NoRepeats(ListOf(t, e)) && forall c | c in ListOf(t, e) :: c in made {
      assert NoRepeats(ListOf(subs, e));
      assert e == event ==> ListOf(t, e) == Without(ListOf(subs, e), ch);
      assert e != event ==> ListOf(t, e) == ListOf(subs, e);
    }
  }

  type Buffers = map<Chan, seq<Message>>

  /** Every channel that is among `chans` and has room gets the message. */
  function Delivered(buffers: Buffers, depth: map<Chan, nat>, chans: seq<Chan>, msg: Message): (now: Buffers)
    ensures now.Keys == buffers.Keys
  {
    map c | c in buffers ::
      buffers[c] + if c in chans && c in depth && |buffers[c]| < depth[c] then [msg] else []
  }

  lemma DeliverNext(buffers: Buffers, depth: map<Chan, nat>, chans: seq<Chan>, ch: Chan, msg: Message)
    requires ch !in chans && ch in buffers && ch in depth
    ensures var now := Delivered(buffers, depth, chans, msg);
      Delivered(buffers, depth, chans + [ch], msg) ==
        if |now[ch]| < depth[ch] then now[ch := now[ch] + [msg]] else now
  {
    assert forall c :: c in chans + [ch] <==> c in chans || c == ch;
    assert buffers[ch] + [] == buffers[ch];
  }

  lemma DeliverNone(buffers: Buffers, depth: map<Chan, nat>, msg: Message)
    ensures Delivered(buffers, depth, [], msg) == buffers
  {
    assert forall c | c in buffers :: buffers[c] + [] == buffers[c];
  }

  // ---------------------------------------------------------------- the critical sections

  /** What the mutex protects, and the contents and capacities of the channels made so far. */
  class Service {
    var subs: Subs
    var next: nat
    var buffers: Buffers
    var depth: map<Chan, nat>

    /** Every channel has a buffer within its capacity. */
    ghost predicate Valid()
      reads this
    {
      && buffers.Keys == depth.Keys
      && (forall c | c in buffers :: c.id < next && |buffers[c]| <= depth[c])
      && GoodLists(subs, buffers.Keys)
    }

    constructor ()
      ensures Valid() && subs == map[] && next == 0 && buffers == map[] && depth == map[]
    {
      subs, next, buffers, depth := map[], 0, map[], map[];
    }

    /** Subscribe's critical section: a new channel, empty, at the end of its event's list. */
    method AddChannel(event: uint16, capacity: nat) returns (ch: Chan)
      requires Valid()
      modifies this
      ensures Valid() && ch == Chan(old(next)) && ch !in old(buffers) && next == old(next) + 1
      ensures subs == Added(old(subs), event, ch)
      ensures buffers == old(buffers)[ch := []] && depth == old(depth)[ch := capacity]
    {
      hide GoodLists;
      ch := Chan(next);
      AddedGood(subs, event, ch, buffers.Keys);
      next := next + 1;
      buffers, depth := buffers[ch := []], depth[ch := capacity];
      var chans := ListOf(subs, event);
      subs := subs[event := chans + [ch]];
      assert buffers.Keys == old(buffers).Keys + {ch};
    }

    method RemoveChannel(event: uint16, ch: Chan)
      requires Valid()
      modifies this`subs
      ensures Valid() && subs == Removed(old(subs), event, ch)
    {
      hide GoodLists;
      RemovedGood(subs, event, ch, buffers.Keys);
      var chans := ListOf(subs, event);
      var filtered: seq<Chan> := [];
      for i := 0 to |chans|
        invariant filtered == Without(chans[..i], ch)
      {
        assert chans[..i + 1][..i] == chans[..i];
        if chans[i] != ch {
          filtered := filtered + [chans[i]];
        }
      }
      assert chans[..|chans|] == chans;
      subs := subs[event := filtered];
    }

    /** The subscriber takes the oldest message off its channel. */
    method Receive(ch: Chan) returns (r: Option<Message>)
      requires Valid() && ch in buffers
      modifies this`buffers
      ensures Valid() && buffers.Keys == old(buffers).Keys
      ensures forall c | c in buffers && c != ch :: buffers[c] == old(buffers)[c]
      ensures old(buffers)[ch] == (if r.Some? then [r.value] else []) + buffers[ch]
      ensures r == None ==> buffers[ch] == []
    {
      hide GoodLists;
      var queue := buffers[ch];
      if queue == [] {
        return None;
      }
      buffers := buffers[ch := queue[1..]];
      assert buffers.Keys == old(buffers).Keys;
      return Some(queue[0]);
    }

    predicate Room(ch: Chan)
      reads this
    {
      ch in buffers && ch in depth && |buffers[ch]| < depth[ch]
    }

    /** One received frame; replies to calls, the other branch, are not part of this object. */
    method DispatchFrame(frame: seq<byte>)
      requires Valid()
      modifies this`buffers
      ensures Valid() && buffers.Keys == old(buffers).Keys
      ensures forall c | c in buffers ::
        if IsEvent(frame) && c in ListOf(subs, Codec.Decode(frame).value.methodID) && old(Room(c))
        then buffers[c] == old(buffers)[c] + [Codec.Decode(frame).value]
        else buffers[c] == old(buffers)[c]
    {
      hide Codec.Decode, GoodLists;
      var decoded := Codec.Decode(frame);
      if decoded.Failure? {
        return;
      }
      var msg := decoded.value;
      if msg.serviceID == SdFormat.SD_SERVICE_ID && msg.methodID == SdFormat.SD_METHOD_ID {
        return;
      }
      if msg.messageType == MSG_NOTIFICATION {
        Notify(msg);
      }
    }

    /** The notification branch of dispatchFrame: each subscriber of the event with room in its channel gets
        the message once; nobody else gets anything, and a full channel keeps what it has. */
    method Notify(msg: Message)
      requires Valid()
      modifies this`buffers
      ensures Valid() && buffers.Keys == old(buffers).Keys
      ensures forall c | c in ListOf(subs, msg.methodID) ::
        c in buffers && buffers[c] == old(buffers)[c] + if |old(buffers)[c]| < depth[c] then [msg] else []
      ensures forall c | c in buffers && c !in ListOf(subs, msg.methodID) :: buffers[c] == old(buffers)[c]
    {
      var chans := ListOf(subs, msg.methodID);
      assert NoRepeats(chans) && forall c | c in chans :: c in buffers && c in depth;
      ghost var before := buffers;
      SendAll(chans, msg);
      hide GoodLists, ListOf;
      assert buffers.Keys == before.Keys;
    }

    method SendAll(chans: seq<Chan>, msg: Message)
      requires NoRepeats(chans) && forall c | c in chans :: c in buffers && c in depth
      modifies this`buffers
      ensures buffers == Delivered(old(buffers), depth, chans, msg)
    {
      hide Delivered;
      ghost var before := buffers;
      DeliverNone(before, depth, msg);
      assert chans[..0] == [];
      for i := 0 to |chans|
        invariant buffers == Delivered(before, depth, chans[..i], msg)
      {
        var ch := chans[i];
        assert ch in before && ch !in chans[..i];
        DeliverNext(before, depth, chans[..i], ch, msg);
        assert chans[..i + 1] == chans[..i] + [ch];
        if |buffers[ch]| < depth[ch] {
          buffers := buffers[ch := buffers[ch] + [msg]];
        }
      }
      assert chans[..|chans|] == chans;
    }
  }

  /** A subscriber of a fresh service finds the first event on its channel. */
  method SubscribeAndReceive(capacity: nat, msg: Message) returns (r: Option<Message>)
    ensures r == if capacity > 0 then Some(msg) else None
  {
    var service := new Service();
    var ch := service.AddChannel(msg.methodID, capacity);
    assert ListOf(service.subs, msg.methodID) == [ch];
    service.Notify(msg);
    ghost var queue := service.buffers[ch];
    assert queue == if capacity > 0 then [msg] else [];
    r := service.Receive(ch);
    assert r.Some? ==> queue[0] == r.value;
  }

  /** The frames dispatchFrame passes to subscribers: decodable notifications outside service discovery. */
  predicate IsEvent(frame: seq<byte>) {
    var r := Codec.Decode(frame);
    r.Success? && r.value.messageType == MSG_NOTIFICATION &&
    !(r.value.serviceID == SdFormat.SD_SERVICE_ID && r.value.methodID == SdFormat.SD_METHOD_ID)
  }

  /** Of the messages a peer can send, exactly the notifications (type 2) for another service and method than
      0xFFFF and 0x8100 are events. */
  lemma EventIff(msg: Message)
    requires |msg.payload| < 0xFFFF_FFF8
    ensures IsEvent(Codec.Frame(msg)) <==>
      msg.messageType == 0x02 && !(msg.serviceID == 0xFFFF && msg.methodID == 0x8100)
  {
    hide Codec.Decode, Codec.Frame;
    Codec.DecodeOfFrame(msg);
  }

  // ---------------------------------------------------------------- interleavings

  /** A dispatch under way: the channels it has sent to, and those it still has to. */
  datatype Dispatch = Idle | Sending(event: uint16, sent: seq<Chan>, left: seq<Chan>)

  /** `owner` records every subscription ever made, `removed` those whose Unsubscribe has been through the
      mutex, `closed` the channels closed. A send on a closed channel and a second close both panic. */
  datatype State = State(
    subs: Subs, owner: map<Chan, uint16>, next: nat,
    removed: set<Chan>, closed: set<Chan>,
    dispatch: Dispatch, panicked: bool)

  const START := State(map[], map[], 0, {}, {}, Idle, false)

  datatype Step =
    | Subscribe(event: uint16)
    | BeginDispatch(event: uint16)
    | Send
    | EndDispatch
    | Unsubscribe(ch: Chan)
    | CloseOnce(ch: Chan)

  /** One step; a step that cannot be taken waits. Subscribe, Unsubscribe and BeginDispatch need the mutex,
      which a dispatch holds to its end when `locked`. CloseOnce is the once-guarded second half of a
      subscription's Close, outside the mutex and after some Unsubscribe of it. */
  function Next(s: State, step: Step, locked: bool): State {
    match step
    case Subscribe(event) =>
      if locked && s.dispatch != Idle then s
      else
        var ch := Chan(s.next);
        s.(subs := Added(s.subs, event, ch), owner := s.owner[ch := event], next := s.next + 1)
    case BeginDispatch(event) =>
      if s.dispatch != Idle then s else s.(dispatch := Sending(event, [], ListOf(s.subs, event)))
    case Send =>
      if s.dispatch == Idle || s.dispatch.left == [] then s
      else
        var ch := s.dispatch.left[0];
        s.(dispatch := s.dispatch.(sent := s.dispatch.sent + [ch], left := s.dispatch.left[1..]),
           panicked := s.panicked || ch in s.closed)
    case EndDispatch =>
      if s.dispatch == Idle || s.dispatch.left != [] then s else s.(dispatch := Idle)
    case Unsubscribe(ch) =>
      if ch !in s.owner || (locked && s.dispatch != Idle) then s
      else s.(subs := Removed(s.subs, s.owner[ch], ch), removed := s.removed + {ch})
    case CloseOnce(ch) =>
      if ch !in s.removed || ch in s.closed then s else s.(closed := s.closed + {ch})
  }

  function After(steps: seq<Step>, locked: bool): State
    decreases |steps|
  {
    if steps == [] then START else Next(After(steps[..|steps| - 1], locked), steps[|steps| - 1], locked)
  }

  predicate Ascending(chans: seq<Chan>) {
    forall i, j | 0 <= i < j < |chans| :: chans[i].id < chans[j].id
  }

  /** The lists hold exactly the subscriptions not yet removed, each once, under its own event and in the
      order of subscription. */
  ghost predicate Exact(s: State) {
    && (forall c | c in s.owner :: c.id < s.next)
    && (forall c | c in s.removed :: c in s.owner)
    && (forall e: uint16 :: Ascending(ListOf(s.subs, e)))
    && (forall e: uint16, c :: c in ListOf(s.subs, e) <==> c in s.owner && s.owner[c] == e && c !in s.removed)
  }

  ghost predicate Inv(s: State) {
    && Exact(s)
    && s.closed <= s.removed
    && (s.dispatch.Sending? ==> s.dispatch.sent + s.dispatch.left == ListOf(s.subs, s.dispatch.event))
    && !s.panicked
  }

  lemma {:induction false} WithoutAscending(chans: seq<Chan>, ch: Chan)
    requires Ascending(chans)
    ensures Ascending(Without(chans, ch))
    decreases |chans|
  {
    if chans != [] {
      var front := chans[..|chans| - 1];
      WithoutAscending(front, ch);
      forall c | c in Without(front, ch) ensures c.id < chans[|chans| - 1].id {
        assert c in front;
      }
    }
  }

  lemma SubscribeKeepsExact(s: State, event: uint16)
    requires Exact(s)
    ensures Exact(Next(s, Subscribe(event), false))
    ensures Chan(s.next) !in s.owner
  {
    var t := Next(s, Subscribe(event), false);
    forall e: uint16 ensures Ascending(ListOf(t.subs, e)) {
      assert Ascending(ListOf(s.subs, e));
      assert forall c | c in ListOf(s.subs, e) :: c.id < s.next;
    }
    forall e: uint16, c
      ensures c in ListOf(t.subs, e) <==> c in t.owner && t.owner[c] == e && c !in t.removed
    {
      assert c in ListOf(s.subs, e) <==> c in s.owner && s.owner[c] == e && c !in s.removed;
    }
  }

  lemma UnsubscribeKeepsExact(s: State, ch: Chan)
    requires Exact(s)
    ensures Exact(Next(s, Unsubscribe(ch), false))
  {
    if ch in s.owner {
      var t := Next(s, Unsubscribe(ch), false);
      var event := s.owner[ch];
      WithoutAscending(ListOf(s.subs, event), ch);
      assert ListOf(t.subs, event) == Without(ListOf(s.subs, event), ch);
      assert forall e: uint16 | e != event :: ListOf(t.subs, e) == ListOf(s.subs, e);
      forall e: uint16 ensures Ascending(ListOf(t.subs, e)) {
        assert Ascending(ListOf(s.subs, e));
      }
      forall e: uint16, c
        ensures c in ListOf(t.subs, e) <==> c in t.owner && t.owner[c] == e && c !in t.removed
      {
        assert c in ListOf(s.subs, e) <==> c in s.owner && s.owner[c] == e && c !in s.removed;
      }
    }
  }

  lemma StepKeepsInv(s: State, step: Step)
    requires Inv(s)
    ensures Inv(Next(s, step, true))
  {
    hide Exact, Added, Removed;
    match step
    case Subscribe(event) => SubscribeKeepsExact(s, event);
    case Unsubscribe(ch) => UnsubscribeKeepsExact(s, ch);
    case CloseOnce(_) => SameExact(s, Next(s, step, true));
    case BeginDispatch(event) =>
      SameExact(s, Next(s, step, true));
      assert [] + ListOf(s.subs, event) == ListOf(s.subs, event);
    case EndDispatch => SameExact(s, Next(s, step, true));
    case Send =>
      SameExact(s, Next(s, step, true));
      SendIsSafe(s);
  }

  lemma SameExact(s: State, t: State)
    requires Exact(s) && t.subs == s.subs && t.owner == s.owner && t.next == s.next && t.removed == s.removed
    ensures Exact(t)
  {
  }

  lemma SendIsSafe(s: State)
    requires Inv(s)
    ensures s.dispatch.Sending? && s.dispatch.left != [] ==> s.dispatch.left[0] !in s.closed
    ensures s.dispatch.Sending? && s.dispatch.left != [] ==>
      s.dispatch.sent + [s.dispatch.left[0]] + s.dispatch.left[1..] == s.dispatch.sent + s.dispatch.left
  {
    if s.dispatch.Sending? && s.dispatch.left != [] {
      assert s.dispatch.left[0] in s.dispatch.sent + s.dispatch.left;
    }
  }

  lemma {:induction false} InvAlways(steps: seq<Step>)
    ensures Inv(After(steps, true))
    decreases |steps|
  {
    hide Inv, Next;
    if steps == [] {
      InvAtStart();
    } else {
      InvAlways(steps[..|steps| - 1]);
      StepKeepsInv(After(steps[..|steps| - 1], true), steps[|steps| - 1]);
    }
  }

  lemma InvAtStart()
    ensures Inv(START)
  {
  }

  // ---------------------------------------------------------------- what every run satisfies

  /** A closed channel is in no list, so a dispatch never sends on one, whatever is interleaved. */
  lemma ClosedIsNeverListed(steps: seq<Step>)
    ensures var s := After(steps, true);
      && !s.panicked
      && (forall e: uint16, c | c in ListOf(s.subs, e) :: c !in s.closed)
      && (s.dispatch.Sending? ==> forall c | c in s.dispatch.left :: c !in s.closed)
  {
    InvAlways(steps);
    var s := After(steps, true);
    if s.dispatch.Sending? {
      forall c | c in s.dispatch.left ensures c !in s.closed {
        assert c in s.dispatch.sent + s.dispatch.left;
      }
    }
  }

  /** A channel occurs at most once over all lists, and does so exactly while its subscription lives. */
  lemma ListedOnce(steps: seq<Step>, c: Chan, e: uint16, e': uint16, i: nat, j: nat)
    requires var s := After(steps, true);
      i < |ListOf(s.subs, e)| && j < |ListOf(s.subs, e')| && ListOf(s.subs, e)[i] == c == ListOf(s.subs, e')[j]
    ensures e == e' && i == j
    ensures var s := After(steps, true);
      c in s.owner && s.owner[c] == e && c !in s.removed
  {
    InvAlways(steps);
    ExactOnce(After(steps, true), c, e, e', i, j);
  }

  lemma ExactOnce(s: State, c: Chan, e: uint16, e': uint16, i: nat, j: nat)
    requires Exact(s)
    requires i < |ListOf(s.subs, e)| && j < |ListOf(s.subs, e')|
    requires ListOf(s.subs, e)[i] == c == ListOf(s.subs, e')[j]
    ensures e == e' && i == j
    ensures c in s.owner && s.owner[c] == e && c !in s.removed
  {
    var l := ListOf(s.subs, e);
    assert c in l && c in ListOf(s.subs, e') && Ascending(l);
    assert e == e';
    AscendingDistinct(l);
  }

  lemma AscendingDistinct(chans: seq<Chan>)
    requires Ascending(chans)
    ensures forall i, j | 0 <= i < j < |chans| :: chans[i] != chans[j]
  {
  }

  /** A dispatch that reaches its end has sent once to each live subscription of its event, in the order of
      subscription, and to no other channel. */
  lemma DispatchReachesTheLive(steps: seq<Step>)
    ensures var s := After(steps, true);
      s.dispatch.Sending? && s.dispatch.left == [] ==>
        && Ascending(s.dispatch.sent)
        && forall c :: c in s.dispatch.sent <==> c in s.owner && s.owner[c] == s.dispatch.event && c !in s.removed
  {
    InvAlways(steps);
    var s := After(steps, true);
    if s.dispatch.Sending? && s.dispatch.left == [] {
      assert s.dispatch.sent + [] == s.dispatch.sent;
    }
  }

  /** The mutex held over the sends is what makes this so: a dispatch that worked on a snapshot would send
      on a closed channel after Unsubscribe and Close in between. */
  lemma SafeIffLocked(locked: bool)
    ensures locked <==> forall steps :: !After(steps, locked).panicked
  {
    if locked {
      forall steps ensures !After(steps, locked).panicked {
        ClosedIsNeverListed(steps);
      }
    } else {
      SnapshotPanics();
    }
  }

  lemma SnapshotPanics()
    ensures exists steps :: After(steps, false).panicked
  {
    var ch := Chan(0);
    assert After([], false) == START;
    var listed := Added(START.subs, 1, ch);
    var unlisted := Removed(listed, 1, ch);
    var one := [ch];
    assert ListOf(listed, 1) == one && one[1..] == [];
    hide After, Added, Removed, ListOf;
    var s1 := State(listed, START.owner[ch := 1], 1, {}, {}, Idle, false);
    var s2 := s1.(dispatch := Sending(1, [], [ch]));
    var s3 := s2.(subs := unlisted, removed := {ch});
    var s4 := s3.(closed := {ch});
    var steps := Extend([], Subscribe(1), s1);
    steps := Extend(steps, BeginDispatch(1), s2);
    steps := Extend(steps, Unsubscribe(ch), s3);
    steps := Extend(steps, CloseOnce(ch), s4);
    steps := Extend(steps, Send, s4.(dispatch := Sending(1, [ch], []), panicked := true));
  }

  lemma Extend(steps: seq<Step>, step: Step, expected: State) returns (more: seq<Step>)
    requires Next(After(steps, false), step, false) == expected
    ensures After(more, false) == expected
  {
    more := steps + [step];
    assert more[..|more| - 1] == steps;
  }
}
