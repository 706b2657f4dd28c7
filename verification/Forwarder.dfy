/** The goroutine that forwards a subscription to a bounded channel under a back-pressure policy
    (adapt.go, serviceAdapter.Subscribe), interleaved with the channel's consumer.

    A message is named by its position among the messages the forwarder has received, so that equal
    messages stay apart. */
module Forwarder {
  import opened Results

  datatype Policy = Block | DropNewest | DropOldest

  /** Where the forwarder stands: waiting for a message, trying to send the newest one, or about to make
      room for it. `drains` counts the drain attempts made for that message. */
  datatype Phase = Waiting | Sending(drains: nat) | Draining(drains: nat)

  datatype State = State(phase: Phase, received: nat, buffer: seq<nat>, consumed: seq<nat>, dropped: seq<nat>)

  datatype Step = Receive | Forward | Consume

  const START := State(Waiting, 0, [], [], [])

  // ---------------------------------------------------------------- the steps

  /** The non-blocking or blocking select on `out <- rm`, and what its default branch does. */
  function Send(s: State, policy: Policy, depth: nat): Option<State>
    requires s.phase.Sending? && s.received > 0
  {
    var newest := s.received - 1;
    if |s.buffer| < depth then Some(s.(phase := Waiting, buffer := s.buffer + [newest]))
    else
      match policy
      case Block => None
      case DropNewest => Some(s.(phase := Waiting, dropped := s.dropped + [newest]))
      case DropOldest => Some(s.(phase := Draining(s.phase.drains)))
  }

  /** The inner select: take the oldest buffered message if there is one, then try again. */
  function Drain(s: State): State
    requires s.phase.Draining?
  {
    var again := s.(phase := Sending(s.phase.drains + 1));
    if s.buffer == [] then again
    else again.(buffer := s.buffer[1..], dropped := s.dropped + [s.buffer[0]])
  }

  /** None when the step is not enabled. */
  function Next(s: State, step: Step, policy: Policy, depth: nat): Option<State> {
    match step
    case Receive =>
      if s.phase == Waiting then Some(s.(phase := Sending(0), received := s.received + 1)) else None
    case Forward =>
      if s.phase.Sending? && s.received > 0 then Send(s, policy, depth)
      else if s.phase.Draining? then Some(Drain(s))
      else None
    case Consume =>
      if s.buffer == [] then None
      else Some(s.(buffer := s.buffer[1..], consumed := s.consumed + [s.buffer[0]]))
  }

  /** The state after a schedule; a step that is not enabled waits, that is, changes nothing. */
  function After(steps: seq<Step>, policy: Policy, depth: nat): State
    decreases |steps|
  {
    if steps == [] then START
    else
      var before := After(steps[..|steps| - 1], policy, depth);
      var next := Next(before, steps[|steps| - 1], policy, depth);
      if next.Some? then next.value else before
  }

  // ---------------------------------------------------------------- what every state satisfies

  predicate Increasing(xs: seq<nat>) {
    forall i, j | 0 <= i < j < |xs| :: xs[i] < xs[j]
  }

  /** The messages that are dealt with: all but the one in the forwarder's hand. */
  function Settled(s: State): int {
    s.received - if s.phase == Waiting then 0 else 1
  }

  ghost predicate Inv(s: State, policy: Policy, depth: nat) {
    && |s.buffer| <= depth
    && (s.phase != Waiting ==> s.received > 0)
    // each message dealt with is in exactly one place
    && |s.consumed| + |s.buffer| + |s.dropped| == Settled(s)
    && (forall p | 0 <= p < Settled(s) :: p in s.consumed + s.buffer || p in s.dropped)
    // the consumer has, and will get, messages in the order they arrived
    && Increasing(s.consumed + s.buffer) && Increasing(s.dropped)
    && (forall p | p in s.consumed + s.buffer || p in s.dropped :: p < Settled(s))
    && (forall p | p in s.dropped :: p !in s.consumed + s.buffer)
    && (policy == Block ==> s.dropped == [])
    // under DropOldest the buffer is the newest messages without a gap
    && (policy == DropOldest ==> forall i | 0 <= i < |s.buffer| :: s.buffer[i] == Settled(s) - |s.buffer| + i)
    // and a message that the forwarder is done with was not the one sacrificed
    && (policy == DropOldest && s.phase == Waiting && s.received > 0 ==> s.received - 1 in s.consumed + s.buffer)
    // at most one drain attempt, after which there is room
    && (s.phase.Draining? ==> policy == DropOldest && s.phase.drains == 0)
    && (s.phase.Sending? ==> s.phase.drains <= 1 && (s.phase.drains == 1 ==> |s.buffer| < depth))
  }

  lemma AppendIncreasing(xs: seq<nat>, x: nat)
    requires Increasing(xs) && forall p | p in xs :: p < x
    ensures Increasing(xs + [x])
  {
    var ys := xs + [x];
    forall i, j | 0 <= i < j < |ys| ensures ys[i] < ys[j] {
      assert ys[i] == xs[i] && xs[i] in xs;
    }
  }

  lemma ReceiveKeepsInv(s: State, policy: Policy, depth: nat)
    requires Inv(s, policy, depth) && depth >= 1 && Next(s, Receive, policy, depth).Some?
    ensures Inv(Next(s, Receive, policy, depth).value, policy, depth)
  {
  }

  lemma SendKeepsInv(s: State, policy: Policy, depth: nat)
    requires Inv(s, policy, depth) && depth >= 1 && s.phase.Sending? && Send(s, policy, depth).Some?
    ensures Inv(Send(s, policy, depth).value, policy, depth)
  {
    var newest := s.received - 1;
    hide Increasing;
    assert s.consumed + (s.buffer + [newest]) == s.consumed + s.buffer + [newest];
    AppendIncreasing(s.consumed + s.buffer, newest);
    AppendIncreasing(s.dropped, newest);
  }

  lemma DrainKeepsInv(s: State, policy: Policy, depth: nat)
    requires Inv(s, policy, depth) && depth >= 1 && s.phase.Draining?
    ensures Inv(Drain(s), policy, depth)
  {
    if s.buffer != [] {
      OldestIsOlder(s, depth);
      WithoutOldest(s.consumed, s.buffer);
      AppendIncreasing(s.dropped, s.buffer[0]);
      assert s.buffer[0] in s.consumed + s.buffer;
    }
  }

  /** The oldest buffered message is newer than every dropped one. */
  lemma OldestIsOlder(s: State, depth: nat)
    requires Inv(s, DropOldest, depth) && s.buffer != []
    ensures forall p | p in s.dropped :: p < s.buffer[0]
  {
    forall p | s.buffer[0] <= p < Settled(s) ensures p in s.consumed + s.buffer {
      assert s.buffer[p - s.buffer[0]] == p;
    }
  }

  lemma WithoutOldest(consumed: seq<nat>, buffer: seq<nat>)
    requires buffer != [] && Increasing(consumed + buffer)
    ensures Increasing(consumed + buffer[1..])
    ensures forall p :: p in consumed + buffer[1..] <==> p in consumed + buffer && p != buffer[0]
  {
    var all, rest, n := consumed + buffer, consumed + buffer[1..], |consumed|;
    assert all[n] == buffer[0];
    forall i | 0 <= i < |rest| ensures rest[i] == all[if i < n then i else i + 1] {
    }
    forall p | p in all && p != buffer[0] ensures p in rest {
      var i :| 0 <= i < |all| && all[i] == p;
      assert rest[if i < n then i else i - 1] == p;
    }
  }

  lemma ConsumeKeepsInv(s: State, policy: Policy, depth: nat)
    requires Inv(s, policy, depth) && depth >= 1 && s.buffer != []
    ensures Inv(Next(s, Consume, policy, depth).value, policy, depth)
  {
    assert s.consumed + [s.buffer[0]] + s.buffer[1..] == s.consumed + s.buffer;
  }

  /** Every schedule of arrivals, forwarder steps and reads keeps the invariant. */
  lemma {:induction false} InvAlways(steps: seq<Step>, policy: Policy, depth: nat)
    requires depth >= 1
    ensures Inv(After(steps, policy, depth), policy, depth)
    decreases |steps|
  {
    hide Inv;
    if steps == [] {
      InvAtStart(policy, depth);
    } else {
      var before := After(steps[..|steps| - 1], policy, depth);
      InvAlways(steps[..|steps| - 1], policy, depth);
      StepKeepsInv(before, steps[|steps| - 1], policy, depth);
    }
  }

  lemma InvAtStart(policy: Policy, depth: nat)
    ensures Inv(START, policy, depth)
  {
  }

  lemma StepKeepsInv(s: State, step: Step, policy: Policy, depth: nat)
    requires Inv(s, policy, depth) && depth >= 1
    ensures Next(s, step, policy, depth).Some? ==> Inv(Next(s, step, policy, depth).value, policy, depth)
  {
    hide Inv;
    if Next(s, step, policy, depth).Some? {
      match step
      case Receive => ReceiveKeepsInv(s, policy, depth);
      case Consume => ConsumeKeepsInv(s, policy, depth);
      case Forward =>
        if s.phase.Sending? {
          SendKeepsInv(s, policy, depth);
        } else {
          DrainKeepsInv(s, policy, depth);
        }
    }
  }

  // ---------------------------------------------------------------- what a subscriber can rely on

  /** forwarded = consumed + buffered + dropped, not counting the message in hand; each message in exactly
      one of the three, and the consumer sees them in the order of arrival. */
  lemma Conservation(steps: seq<Step>, policy: Policy, depth: nat)
    requires depth >= 1
    ensures var s := After(steps, policy, depth);
      && s.received == |s.consumed| + |s.buffer| + |s.dropped| + (if s.phase == Waiting then 0 else 1)
      && Increasing(s.consumed + s.buffer)
      && (forall p: nat | p < Settled(s) :: p in s.dropped <==> p !in s.consumed + s.buffer)
      && |s.buffer| <= depth
  {
    InvAlways(steps, policy, depth);
  }

  /** Under Block the consumer gets every message. */
  lemma BlockLosesNothing(steps: seq<Step>, depth: nat)
    requires depth >= 1
    ensures var s := After(steps, Block, depth);
      && s.dropped == [] && |s.consumed + s.buffer| == Settled(s)
      && (forall i | 0 <= i < Settled(s) :: (s.consumed + s.buffer)[i] == i)
  {
    InvAlways(steps, Block, depth);
    var s := After(steps, Block, depth);
    var xs := s.consumed + s.buffer;
    assert forall i | 0 <= i < |xs| :: xs[i] in xs;
    Dense(xs);
  }

  /** Strictly increasing numbers that stay below their count are 0, 1, 2, ... */
  lemma {:induction false} Dense(xs: seq<nat>)
    requires Increasing(xs) && forall i | 0 <= i < |xs| :: xs[i] < |xs|
    ensures forall i | 0 <= i < |xs| :: xs[i] == i
    decreases |xs|
  {
    if xs != [] {
      var front := xs[..|xs| - 1];
      forall i | 0 <= i < |front| ensures front[i] < |front| {
        assert xs[i] < xs[|xs| - 1];
      }
      Dense(front);
      assert forall i | 0 <= i < |front| :: xs[i] == front[i] == i;
      assert |front| > 0 ==> xs[|front| - 1] < xs[|front|];
    }
  }

  /** Under DropOldest what is buffered is newer than everything dropped, and whenever the forwarder is
      waiting the newest message is buffered or already consumed. */
  lemma DropOldestKeepsTheNewest(steps: seq<Step>, depth: nat)
    requires depth >= 1
    ensures var s := After(steps, DropOldest, depth);
      && (forall d, b | d in s.dropped && b in s.buffer :: d < b)
      && (forall i | 0 <= i < |s.buffer| :: s.buffer[i] == Settled(s) - |s.buffer| + i)
      && (s.phase == Waiting && s.received > 0 ==> s.received - 1 in s.consumed + s.buffer)
  {
    InvAlways(steps, DropOldest, depth);
    var s := After(steps, DropOldest, depth);
    if s.buffer != [] {
      OldestIsOlder(s, depth);
    }
  }

  /** Own steps the forwarder still needs for the message in hand under a dropping policy. */
  function Remaining(s: State): nat {
    match s.phase
    case Waiting => 0
    case Sending(drains) => if drains == 0 then 3 else 1
    case Draining(_) => 2
  }

  /** A stalled subscriber does not stall delivery: under a dropping policy the forwarder always has a
      step, each brings it closer to the next message, and nothing the consumer does sets it back. So it
      is done after at most three steps, one of them a drain attempt. */
  lemma NeverStalls(steps: seq<Step>, policy: Policy, depth: nat)
    requires depth >= 1 && policy != Block
    ensures var s := After(steps, policy, depth);
      && (s.phase != Waiting ==>
            Next(s, Forward, policy, depth).Some? && Remaining(Next(s, Forward, policy, depth).value) < Remaining(s))
      && (s.buffer != [] ==> Remaining(Next(s, Consume, policy, depth).value) == Remaining(s))
      && (s.phase.Sending? ==> s.phase.drains <= 1) && (s.phase.Draining? ==> s.phase.drains == 0)
  {
    InvAlways(steps, policy, depth);
  }

  /** Room is always used: under every policy, a forwarder that has a message in hand and finds room enqueues
      it in its next step, behind everything buffered, and is ready for the next message. */
  lemma SendsWhenRoom(steps: seq<Step>, policy: Policy, depth: nat)
    requires depth >= 1
    ensures var s, t := After(steps, policy, depth), After(steps + [Forward], policy, depth);
      s.phase.Sending? && |s.buffer| < depth ==>
        s.received > 0 && t == s.(phase := Waiting, buffer := s.buffer + [s.received - 1])
  {
    InvAlways(steps, policy, depth);
    var more := steps + [Forward];
    assert more[..|more| - 1] == steps;
  }

  /** Under Block a full buffer holds the forwarder up, and only that; one read by the consumer lets it go on. */
  lemma BlockWaitsForRoom(steps: seq<Step>, depth: nat)
    requires depth >= 1
    ensures var s := After(steps, Block, depth);
      s.phase != Waiting ==>
        && s.phase.Sending? && s.received > 0
        && (Next(s, Forward, Block, depth).None? <==> |s.buffer| == depth)
        && (|s.buffer| == depth ==>
              After(steps + [Consume] + [Forward], Block, depth) ==
                s.(phase := Waiting, buffer := s.buffer[1..] + [s.received - 1],
                   consumed := s.consumed + [s.buffer[0]]))
  {
    InvAlways(steps, Block, depth);
    var more, most := steps + [Consume], steps + [Consume] + [Forward];
    assert more[..|more| - 1] == steps && most[..|most| - 1] == more;
  }

  /** A full buffer makes DropNewest give up the message in hand and DropOldest turn to draining, and nothing
      else does. */
  lemma FullBufferIff(steps: seq<Step>, policy: Policy, depth: nat)
    requires depth >= 1
    ensures var s, t := After(steps, policy, depth), After(steps + [Forward], policy, depth);
      s.phase.Sending? ==>
        && (t.phase.Draining? <==> policy == DropOldest && |s.buffer| == depth)
        && (t.dropped != s.dropped <==> policy == DropNewest && |s.buffer| == depth)
  {
    InvAlways(steps, policy, depth);
    var more := steps + [Forward];
    assert more[..|more| - 1] == steps;
  }

  /** When a message is lost: under DropNewest the arriving one, at a full buffer; under DropOldest the
      oldest buffered one, if the buffer was full when the forwarder looked and is not empty now. */
  lemma DropsIff(steps: seq<Step>, step: Step, policy: Policy, depth: nat)
    requires depth >= 1
    ensures var s, t := After(steps, policy, depth), After(steps + [step], policy, depth);
      && (t.dropped != s.dropped <==>
            step == Forward &&
            ((policy == DropNewest && s.phase.Sending? && |s.buffer| == depth) ||
             (s.phase.Draining? && s.buffer != [])))
      && (t.dropped != s.dropped ==>
            t.dropped == s.dropped + [if policy == DropNewest then s.received - 1 else s.buffer[0]])
  {
    InvAlways(steps, policy, depth);
    var more := steps + [step];
    assert more[..|more| - 1] == steps;
  }

  /** DropOldest can drop although the buffer has room by then: the consumer reads between the failed send
      and the drain. */
  lemma DropWithRoom()
    ensures exists steps | After(steps, DropOldest, 2) == State(Draining(0), 3, [1], [0], []) ::
      After(steps + [Forward], DropOldest, 2) == State(Sending(1), 3, [], [0], [1])
  {
    var steps: seq<Step> := [];
    assert [] + [0] == [0] && [0] + [1] == [0, 1] && [] + [1] == [1];
    steps := Extend(steps, Receive, State(Sending(0), 1, [], [], []));
    steps := Extend(steps, Forward, State(Waiting, 1, [0], [], []));
    steps := Extend(steps, Receive, State(Sending(0), 2, [0], [], []));
    steps := Extend(steps, Forward, State(Waiting, 2, [0, 1], [], []));
    steps := Extend(steps, Receive, State(Sending(0), 3, [0, 1], [], []));
    steps := Extend(steps, Forward, State(Draining(0), 3, [0, 1], [], []));
    steps := Extend(steps, Consume, State(Draining(0), 3, [1], [0], []));
    var one: seq<nat> := [1];
    assert one[1..] == [];
    var more := Extend(steps, Forward, State(Sending(1), 3, [], [0], [1]));
  }

  lemma Extend(steps: seq<Step>, step: Step, expected: State) returns (more: seq<Step>)
    requires Next(After(steps, DropOldest, 2), step, DropOldest, 2) == Some(expected)
    ensures more == steps + [step] && After(more, DropOldest, 2) == expected
  {
    more := steps + [step];
    assert more[..|more| - 1] == steps;
  }
}
