/** Whole runs of the reassembler: segments of any keys, GC ticks and Close in any interleaving. */
module TpRuns {
  import opened Bytes
  import opened SomeIp
  import opened TpSegment
  import opened TpWindow
  import opened TpState

  datatype Event =
    | Arrive(seg: Message, now: int)
    | Tick(reading: int)
    | Shutdown

  function StepState(timeout: int, s: State, e: Event): State {
    match e
    case Arrive(seg, now) => AddStep(timeout, s, seg, now).0
    case Tick(reading) => SweepStep(timeout, s, reading)
    case Shutdown => EMPTY
  }

  function After(timeout: int, s: State, es: seq<Event>): State {
    if es == [] then s else StepState(timeout, After(timeout, s, es[..|es| - 1]), es[|es| - 1])
  }

  function OutcomeAt(timeout: int, s: State, es: seq<Event>, i: nat): Outcome
    requires i < |es| && es[i].Arrive?
  {
    AddStep(timeout, After(timeout, s, es[..i]), es[i].seg, es[i].now).1
  }

  predicate HasReading(e: Event) {
    !e.Shutdown?
  }

  function Reading(e: Event): int
    requires HasReading(e)
  {
    if e.Arrive? then e.now else e.reading
  }

  /** The clock never goes back, and Add reads it under the lock: its reading is no earlier than any
      reading made by an event before it. A tick's own reading may be stale. */
  ghost predicate Timely(es: seq<Event>) {
    forall i, j | 0 <= i < j < |es| && HasReading(es[i]) && es[j].Arrive? :: Reading(es[i]) <= es[j].now
  }

  lemma AfterNext(timeout: int, s: State, es: seq<Event>, i: nat)
    requires i < |es|
    ensures After(timeout, s, es[..i + 1]) == StepState(timeout, After(timeout, s, es[..i]), es[i])
  {
    assert es[..i + 1][..i] == es[..i];
  }

  // ---------------------------------------------------------------- the invariant on every run

  lemma {:induction false} InvAlways(timeout: int, s: State, es: seq<Event>)
    requires Inv(s)
    ensures Inv(After(timeout, s, es))
    decreases |es|
  {
    if es != [] {
      var before, e := After(timeout, s, es[..|es| - 1]), es[|es| - 1];
      InvAlways(timeout, s, es[..|es| - 1]);
      match e
      case Arrive(seg, now) => AddKeepsInv(timeout, before, seg, now);
      case Tick(reading) => SweepKeepsInv(timeout, before, reading);
      case Shutdown =>
    }
  }

  /** Whatever segments arrive, every message that is put together fits the bound and carries no TP bit. */
  lemma EveryDeliveryBounded(timeout: int, es: seq<Event>, i: nat, msg: Message)
    requires i < |es| && es[i].Arrive?
    requires OutcomeAt(timeout, EMPTY, es, i).Completed?
    requires Delivers(OutcomeAt(timeout, EMPTY, es, i).window, msg)
    ensures |msg.payload| <= 67108864 && msg.messageType / 32 % 2 == 0 && SameIds(msg, es[i].seg)
  {
    InvAlways(timeout, EMPTY, es[..i]);
    AddKeepsInv(timeout, After(timeout, EMPTY, es[..i]), es[i].seg, es[i].now);
    DeliveredBounded(OutcomeAt(timeout, EMPTY, es, i).window, KeyOf(es[i].seg), msg);
    SameKeyIff(msg, es[i].seg);
  }

  // ---------------------------------------------------------------- timeouts

  /** Some segment has been added at or after time t. */
  ghost predicate ClockPassed(es: seq<Event>, t: int) {
    exists i :: 0 <= i < |es| && es[i].Arrive? && t <= es[i].now
  }

  /** No key ever has both a window and a tombstone that is still in force. */
  lemma {:induction false} WindowOutlivesTombstone(timeout: int, es: seq<Event>, k: Key)
    requires var s := After(timeout, EMPTY, es); k in s.windows && k in s.tombstones
    ensures ClockPassed(es, After(timeout, EMPTY, es).tombstones[k])
    decreases |es|
  {
    var n := |es| - 1;
    var before, after := After(timeout, EMPTY, es[..n]), After(timeout, EMPTY, es);
    if k in before.windows && k in before.tombstones {
      WindowOutlivesTombstone(timeout, es[..n], k);
      var i :| 0 <= i < n && es[..n][i].Arrive? && before.tombstones[k] <= es[..n][i].now;
      assert es[i].Arrive? && before.tombstones[k] <= es[i].now;
      assert after.tombstones[k] == before.tombstones[k];
    } else {
      assert es[n].Arrive? && after.tombstones[k] <= es[n].now;
    }
  }

  /** Event i evicts the window of k, whether Add or the GC finds it expired. */
  ghost predicate Evicts(timeout: int, s: State, es: seq<Event>, i: nat, k: Key)
    requires i < |es|
  {
    && k in After(timeout, s, es[..i]).windows
    && HasReading(es[i])
    && Reading(es[i]) > After(timeout, s, es[..i]).windows[k].expires
    && (es[i].Arrive? ==> KeyOf(es[i].seg) == k && Parse(es[i].seg).Chunk?)
  }

  ghost predicate Guarded(s: State, k: Key, expiry: int) {
    k !in s.windows && k in s.tombstones && s.tombstones[k] == expiry
  }

  lemma GuardHolds(timeout: int, s: State, e: Event, k: Key, expiry: int)
    requires Guarded(s, k, expiry)
    requires HasReading(e) && Reading(e) < expiry
    ensures Guarded(StepState(timeout, s, e), k, expiry)
    ensures e.Arrive? && KeyOf(e.seg) == k && Parse(e.seg).Chunk? ==>
      AddStep(timeout, s, e.seg, e.now).1 == RejectedTimeout
  {
  }

  lemma EvictionGuards(timeout: int, s: State, e: Event, k: Key)
    requires timeout > 0
    requires k in s.windows && HasReading(e) && Reading(e) > s.windows[k].expires
    requires e.Arrive? ==> KeyOf(e.seg) == k && Parse(e.seg).Chunk?
    ensures Guarded(StepState(timeout, s, e), k, Reading(e) + 2 * timeout)
  {
  }

  /** The tombstone left at event i survives every event up to m that reads the clock before it expires. */
  lemma {:induction false} GuardedUntil(timeout: int, s: State, es: seq<Event>, i: nat, m: nat, k: Key)
    requires i < m <= |es| && timeout > 0
    requires Evicts(timeout, s, es, i, k)
    requires forall j | i < j < m :: HasReading(es[j]) && Reading(es[j]) < Reading(es[i]) + 2 * timeout
    ensures Guarded(After(timeout, s, es[..m]), k, Reading(es[i]) + 2 * timeout)
    decreases m
  {
    AfterNext(timeout, s, es, m - 1);
    if m == i + 1 {
      EvictionGuards(timeout, After(timeout, s, es[..i]), es[i], k);
    } else {
      GuardedUntil(timeout, s, es, i, m - 1, k);
      GuardHolds(timeout, After(timeout, s, es[..m - 1]), es[m - 1], k, Reading(es[i]) + 2 * timeout);
    }
  }

  /** A timeout is sticky: once the window of k has been evicted at time t, every well-formed segment of
      k that arrives before t + 2 * timeout is refused and opens no window, unless Close intervenes. */
  lemma TimeoutIsSticky(timeout: int, s: State, es: seq<Event>, i: nat, j: nat, k: Key)
    requires i < j < |es| && Timely(es)
    requires Evicts(timeout, s, es, i, k)
    requires forall m | i < m < j :: !es[m].Shutdown?
    requires es[j].Arrive? && KeyOf(es[j].seg) == k && Parse(es[j].seg).Chunk?
    requires es[j].now < Reading(es[i]) + 2 * timeout
    ensures OutcomeAt(timeout, s, es, j) == RejectedTimeout
    ensures k !in After(timeout, s, es[..j + 1]).windows
  {
    GuardedUntil(timeout, s, es, i, j, k);
    AfterNext(timeout, s, es, j);
    GuardHolds(timeout, After(timeout, s, es[..j]), es[j], k, Reading(es[i]) + 2 * timeout);
  }

  // ---------------------------------------------------------------- keys do not interfere

  predicate Concerns(e: Event, k: Key) {
    e.Arrive? ==> KeyOf(e.seg) == k
  }

  /** The run without the segments of other keys; GC ticks and Close stay. */
  function OnlyKey(es: seq<Event>, k: Key): seq<Event> {
    if es == [] then []
    else
      var rest, e := OnlyKey(es[..|es| - 1], k), es[|es| - 1];
      if Concerns(e, k) then rest + [e] else rest
  }

  /** What Add reported for the segments of k, in order. */
  function Reports(timeout: int, s: State, es: seq<Event>, k: Key): seq<Outcome> {
    if es == [] then []
    else
      var rest, e := es[..|es| - 1], es[|es| - 1];
      var reports := Reports(timeout, s, rest, k);
      if e.Arrive? && KeyOf(e.seg) == k
      then reports + [AddStep(timeout, After(timeout, s, rest), e.seg, e.now).1] else reports
  }

  ghost predicate SameAt(s: State, t: State, k: Key) {
    && (k in s.windows <==> k in t.windows)
    && (k in s.windows ==> s.windows[k] == t.windows[k])
    && (k in s.tombstones <==> k in t.tombstones)
    && (k in s.tombstones ==> s.tombstones[k] == t.tombstones[k])
  }

  lemma StepSameAt(timeout: int, s: State, t: State, e: Event, k: Key)
    requires SameAt(s, t, k)
    ensures SameAt(StepState(timeout, s, e), if Concerns(e, k) then StepState(timeout, t, e) else t, k)
    ensures e.Arrive? && KeyOf(e.seg) == k ==>
      AddStep(timeout, s, e.seg, e.now).1 == AddStep(timeout, t, e.seg, e.now).1
  {
    hide Parse, Store, Complete, KeyOf;
    match e
    case Arrive(_, _) =>
    case Tick(_) =>
    case Shutdown =>
  }

  /** Segments of other keys can be removed from any run without changing what k's segments report. */
  lemma {:induction false} KeysDoNotInterfere(timeout: int, s: State, t: State, es: seq<Event>, k: Key)
    requires SameAt(s, t, k)
    ensures Reports(timeout, s, es, k) == Reports(timeout, t, OnlyKey(es, k), k)
    ensures SameAt(After(timeout, s, es), After(timeout, t, OnlyKey(es, k)), k)
    decreases |es|
  {
    if es != [] {
      var rest, e := es[..|es| - 1], es[|es| - 1];
      KeysDoNotInterfere(timeout, s, t, rest, k);
      StepSameAt(timeout, After(timeout, s, rest), After(timeout, t, OnlyKey(rest, k)), e, k);
      if Concerns(e, k) {
        assert OnlyKey(es, k)[..|OnlyKey(es, k)| - 1] == OnlyKey(rest, k);
      }
    }
  }

  /** One tick and the next segment, from any state: the tick changes that segment's answer exactly when it
      evicts the window so early that its tombstone has already passed. */
  lemma TickVisibleIff(timeout: int, s: State, reading: int, seg: Message, now: int)
    requires Parse(seg).Chunk? && reading <= now
    ensures
      var k := KeyOf(seg);
      AddStep(timeout, SweepStep(timeout, s, reading), seg, now).1 != AddStep(timeout, s, seg, now).1 <==>
        (k in s.windows && reading > s.windows[k].expires && now >= reading + 2 * timeout)
  {
  }

  // ---------------------------------------------------------------- closing twice

  /** The program around the reassembler: a second Close panics, and nothing happens after a panic. */
  datatype Process = Process(state: State, done: bool, panicked: bool)

  const STARTED := Process(EMPTY, false, false)

  function ProcessStep(timeout: int, p: Process, e: Event): Process {
    if p.panicked then p
    else if e.Shutdown? && p.done then p.(panicked := true)
    else Process(StepState(timeout, p.state, e), p.done || e.Shutdown?, false)
  }

  function ProcessAfter(timeout: int, es: seq<Event>): Process {
    if es == [] then STARTED else ProcessStep(timeout, ProcessAfter(timeout, es[..|es| - 1]), es[|es| - 1])
  }

  ghost predicate ClosedTwice(es: seq<Event>) {
    exists i, j :: 0 <= i < j < |es| && es[i].Shutdown? && es[j].Shutdown?
  }

  /** A run panics exactly if it closes the reassembler twice; until then it is in the state that its
      events lead to. */
  lemma {:induction false} PanicsIffClosedTwice(timeout: int, es: seq<Event>)
    ensures var p := ProcessAfter(timeout, es);
      && (p.panicked <==> ClosedTwice(es))
      && (!p.panicked ==> p.state == After(timeout, EMPTY, es) && (p.done <==> Shutdown in es))
    decreases |es|
  {
    hide StepState;
    if es != [] {
      var n := |es| - 1;
      var rest, before := es[..n], ProcessAfter(timeout, es[..n]);
      PanicsIffClosedTwice(timeout, rest);
      assert es == rest + [es[n]];
      assert ClosedTwice(rest) ==> ClosedTwice(es);
      if !before.panicked && before.done && es[n].Shutdown? {
        var i :| 0 <= i < n && rest[i] == Shutdown;
        assert es[i] == Shutdown;
      }
      if i, j :| 0 <= i < j < |es| && es[i].Shutdown? && es[j].Shutdown? {
        assert j < n ==> rest[i].Shutdown? && rest[j].Shutdown?;
        assert rest[i] == Shutdown;
      }
    }
  }
}
