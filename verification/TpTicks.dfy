/** When the reassembler's GC ticks can be seen from outside: a key's segments are replayed alone, without
    the other keys' segments and without the ticks, and the two runs are kept side by side. */
module TpTicks {
  import opened Bytes
  import opened SomeIp
  import opened TpSegment
  import opened TpWindow
  import opened TpState
  import opened TpRuns

  predicate ArrivalOf(e: Event, k: Key) {
    e.Arrive? && KeyOf(e.seg) == k
  }

  predicate ChunkOf(e: Event, k: Key) {
    ArrivalOf(e, k) && Parse(e.seg).Chunk?
  }

  predicate Kept(e: Event, k: Key) {
    e.Shutdown? || ArrivalOf(e, k)
  }

  /** The run of k's segments alone: no other keys, no GC ticks; Close stays. */
  function OnlySegments(es: seq<Event>, k: Key): seq<Event> {
    if es == [] then []
    else
      var rest, e := OnlySegments(es[..|es| - 1], k), es[|es| - 1];
      if Kept(e, k) then rest + [e] else rest
  }

  // ---------------------------------------------------------------- the condition

  ghost predicate GcEvicts(timeout: int, es: seq<Event>, i: int, k: Key) {
    0 <= i < |es| && es[i].Tick? && Evicts(timeout, EMPTY, es, i, k)
  }

  ghost predicate OpenUntil(es: seq<Event>, i: int, j: int) {
    forall x | 0 <= i < x < j <= |es| :: !es[x].Shutdown?
  }

  /** Event m is the first chunk of k after event i. */
  ghost predicate FirstChunk(es: seq<Event>, k: Key, i: int, m: int) {
    0 <= i < m < |es| && ChunkOf(es[m], k) && forall x | i < x < m :: !ChunkOf(es[x], k)
  }

  /** The GC evicts k at event i, at time t; n is the time of the first chunk of k after that. Chunk j of k
      arrives when the tombstone left by the GC has passed, but the one that the first chunk would have
      left has not: in [t + 2 * timeout, n + 2 * timeout). For j == m the upper end is no matter. */
  ghost predicate InGap(timeout: int, es: seq<Event>, k: Key, i: int, m: int, j: int) {
    && GcEvicts(timeout, es, i, k) && FirstChunk(es, k, i, m)
    && m <= j < |es| && ChunkOf(es[j], k) && OpenUntil(es, i, j)
    && es[i].reading + 2 * timeout <= es[j].now
    && (j == m || es[j].now < es[m].now + 2 * timeout)
  }

  ghost predicate SomeInGap(timeout: int, es: seq<Event>, k: Key) {
    exists i, m, j :: InGap(timeout, es, k, i, m, j)
  }

  // ---------------------------------------------------------------- two runs side by side

  /** How the run with ticks (s) and the run without (t) stand to each other for one key. */
  datatype Lag =
    | InStep
    | Evicted(at: int)
    | Lagging(at: int, first: int)

  predicate Blocked(s: State, k: Key, now: int) {
    k in s.tombstones && now < s.tombstones[k]
  }

  /** c is a time that no later segment can precede. */
  ghost predicate Related(timeout: int, s: State, t: State, k: Key, c: int, lag: Lag) {
    match lag
    case InStep =>
      && (k in s.windows <==> k in t.windows)
      && (k in s.windows ==> s.windows[k] == t.windows[k])
      && (forall n: int | n >= c :: Blocked(s, k, n) <==> Blocked(t, k, n))
    case Evicted(at) =>
      && at <= c && k !in s.windows && k in t.windows && t.windows[k].expires < at
      && (forall n: int | n >= c :: Blocked(s, k, n) <==> n < at + 2 * timeout)
    case Lagging(at, first) =>
      && at <= first <= c && k !in s.windows && k !in t.windows
      && (forall n: int | n >= c :: Blocked(s, k, n) <==> n < at + 2 * timeout)
      && (forall n: int | n >= c :: Blocked(t, k, n) <==> n < first + 2 * timeout)
  }

  function NextLag(timeout: int, s: State, lag: Lag, e: Event, k: Key): Lag {
    match e
    case Shutdown => InStep
    case Tick(reading) => if k in s.windows && reading > s.windows[k].expires then Evicted(reading) else lag
    case Arrive(_, now) =>
      if !ChunkOf(e, k) then lag
      else
        match lag
        case InStep => InStep
        case Evicted(at) => Lagging(at, now)
        case Lagging(at, first) => if now < at + 2 * timeout then lag else InStep
  }

  function LagAt(timeout: int, es: seq<Event>, k: Key): Lag {
    if es == [] then InStep
    else
      var rest := es[..|es| - 1];
      NextLag(timeout, After(timeout, EMPTY, rest), LagAt(timeout, rest, k), es[|es| - 1], k)
  }

  predicate GapAt(timeout: int, lag: Lag, e: Event, k: Key) {
    ChunkOf(e, k) &&
    match lag
    case InStep => false
    case Evicted(at) => at + 2 * timeout <= e.now
    case Lagging(at, first) => at + 2 * timeout <= e.now < first + 2 * timeout
  }

  function Replayed(timeout: int, t: State, e: Event, k: Key): State {
    if Kept(e, k) then StepState(timeout, t, e) else t
  }

  lemma TickRelated(timeout: int, s: State, t: State, k: Key, c: int, lag: Lag, e: Event)
    requires Related(timeout, s, t, k, c, lag) && e.Tick? && e.reading <= c
    ensures Related(timeout, StepState(timeout, s, e), t, k, c, NextLag(timeout, s, lag, e, k))
  {
    var s' := StepState(timeout, s, e);
    var evicted := k in s.windows && e.reading > s.windows[k].expires;
    forall n: int | n >= c
      ensures Blocked(s', k, n) <==> if evicted then n < e.reading + 2 * timeout else Blocked(s, k, n)
    {
    }
  }

  lemma ForeignRelated(timeout: int, s: State, t: State, k: Key, c: int, lag: Lag, e: Event)
    requires Related(timeout, s, t, k, c, lag) && e.Arrive? && !ChunkOf(e, k) && c <= e.now
    ensures Related(timeout, StepState(timeout, s, e), Replayed(timeout, t, e, k), k, e.now,
                    NextLag(timeout, s, lag, e, k))
    ensures KeyOf(e.seg) == k ==> AddStep(timeout, s, e.seg, e.now).1 == AddStep(timeout, t, e.seg, e.now).1
  {
    hide Parse, Store, Complete, KeyOf;
    var s', t' := StepState(timeout, s, e), Replayed(timeout, t, e, k);
    assert forall n: int :: Blocked(s', k, n) <==> Blocked(s, k, n);
    assert forall n: int :: Blocked(t', k, n) <==> Blocked(t, k, n);
  }

  /** A chunk of k is answered alike, unless it falls in the gap. */
  lemma ChunkRelated(timeout: int, s: State, t: State, k: Key, c: int, lag: Lag, e: Event)
    requires Related(timeout, s, t, k, c, lag) && ChunkOf(e, k) && c <= e.now
    ensures AddStep(timeout, s, e.seg, e.now).1 != AddStep(timeout, t, e.seg, e.now).1 <==>
      GapAt(timeout, lag, e, k)
    ensures !GapAt(timeout, lag, e, k) ==>
      Related(timeout, StepState(timeout, s, e), StepState(timeout, t, e), k, e.now, NextLag(timeout, s, lag, e, k))
  {
    hide Parse, Store, Complete, KeyOf;
    var s', t' := StepState(timeout, s, e), StepState(timeout, t, e);
    var late := e.now + 2 * timeout;
    assert forall n: int :: Blocked(s', k, n) <==>
      if k in s.windows && e.now > s.windows[k].expires then n < late else Blocked(s, k, n);
    assert forall n: int :: Blocked(t', k, n) <==>
      if k in t.windows && e.now > t.windows[k].expires then n < late else Blocked(t, k, n);
    assert Blocked(s, k, e.now) == Blocked(s', k, e.now) || k in s.windows;
    assert Blocked(t, k, e.now) == Blocked(t', k, e.now) || k in t.windows;
  }

  // ---------------------------------------------------------------- whole runs

  ghost predicate ReadBy(es: seq<Event>, c: int) {
    forall i | 0 <= i < |es| && HasReading(es[i]) :: Reading(es[i]) <= c
  }

  /** No chunk of k meets the gap that the runs are in at that point. */
  ghost predicate NoGap(timeout: int, es: seq<Event>, k: Key) {
    forall p | 0 <= p < |es| :: !GapAt(timeout, LagAt(timeout, es[..p], k), es[p], k)
  }

  function Replay(timeout: int, es: seq<Event>, k: Key): State {
    After(timeout, EMPTY, OnlySegments(es, k))
  }

  function AllReports(timeout: int, es: seq<Event>, k: Key): seq<Outcome> {
    Reports(timeout, EMPTY, es, k)
  }

  function ReplayReports(timeout: int, es: seq<Event>, k: Key): seq<Outcome> {
    Reports(timeout, EMPTY, OnlySegments(es, k), k)
  }

  lemma LastStep(timeout: int, es: seq<Event>, k: Key)
    requires es != []
    ensures var rest, e := es[..|es| - 1], es[|es| - 1];
      && After(timeout, EMPTY, es) == StepState(timeout, After(timeout, EMPTY, rest), e)
      && Replay(timeout, es, k) == Replayed(timeout, Replay(timeout, rest, k), e, k)
      && AllReports(timeout, es, k) == AllReports(timeout, rest, k) +
           (if ArrivalOf(e, k) then [AddStep(timeout, After(timeout, EMPTY, rest), e.seg, e.now).1] else [])
      && ReplayReports(timeout, es, k) == ReplayReports(timeout, rest, k) +
           (if ArrivalOf(e, k) then [AddStep(timeout, Replay(timeout, rest, k), e.seg, e.now).1] else [])
  {
    hide AddStep, StepState;
    var rest, e := es[..|es| - 1], es[|es| - 1];
    var only := OnlySegments(es, k);
    if Kept(e, k) {
      assert only[..|only| - 1] == OnlySegments(rest, k);
    }
  }

  lemma {:induction false} SameCount(timeout: int, es: seq<Event>, k: Key)
    ensures |AllReports(timeout, es, k)| == |ReplayReports(timeout, es, k)|
    decreases |es|
  {
    hide AllReports, ReplayReports;
    if es == [] {
      NoReports(timeout, k);
    } else {
      SameCount(timeout, es[..|es| - 1], k);
      LastStep(timeout, es, k);
    }
  }

  lemma NoReports(timeout: int, k: Key)
    ensures AllReports(timeout, [], k) == [] && ReplayReports(timeout, [], k) == []
  {
  }

  lemma {:induction false} RunRelated(timeout: int, es: seq<Event>, k: Key, c: int)
    requires Timely(es) && ReadBy(es, c) && NoGap(timeout, es, k)
    ensures AllReports(timeout, es, k) == ReplayReports(timeout, es, k)
    ensures Related(timeout, After(timeout, EMPTY, es), Replay(timeout, es, k), k, c, LagAt(timeout, es, k))
    decreases |es|
  {
    if es != [] {
      var n := |es| - 1;
      var rest, e := es[..n], es[n];
      forall p | 0 <= p < n ensures !GapAt(timeout, LagAt(timeout, rest[..p], k), rest[p], k) {
        assert rest[..p] == es[..p];
      }
      RunRelated(timeout, rest, k, if e.Arrive? then e.now else c);
      LastStep(timeout, es, k);
      LastRelated(timeout, After(timeout, EMPTY, rest), Replay(timeout, rest, k), k, c, LagAt(timeout, rest, k), e);
    }
  }

  lemma LastRelated(timeout: int, s: State, t: State, k: Key, c: int, lag: Lag, e: Event)
    requires Related(timeout, s, t, k, if e.Arrive? then e.now else c, lag) && !GapAt(timeout, lag, e, k)
    requires HasReading(e) ==> Reading(e) <= c
    ensures Related(timeout, StepState(timeout, s, e), Replayed(timeout, t, e, k), k, c, NextLag(timeout, s, lag, e, k))
    ensures ArrivalOf(e, k) ==> AddStep(timeout, s, e.seg, e.now).1 == AddStep(timeout, t, e.seg, e.now).1
  {
    match e
    case Shutdown =>
    case Tick(reading) => TickRelated(timeout, s, t, k, c, lag, e);
    case Arrive(seg, now) =>
      if ChunkOf(e, k) {
        ChunkRelated(timeout, s, t, k, now, lag, e);
      } else {
        ForeignRelated(timeout, s, t, k, now, lag, e);
      }
  }

  // ---------------------------------------------------------------- the lag in terms of the run

  lemma PrefixEvicts(timeout: int, es: seq<Event>, n: nat, i: int, k: Key)
    requires n <= |es|
    ensures GcEvicts(timeout, es[..n], i, k) <==> i < n && GcEvicts(timeout, es, i, k)
  {
    if 0 <= i < n {
      assert es[..n][..i] == es[..i];
    }
  }

  /** GC eviction i is the last one that matters: no Close and no chunk of k since. */
  ghost predicate EvictedAt(timeout: int, es: seq<Event>, k: Key, i: int) {
    GcEvicts(timeout, es, i, k) && OpenUntil(es, i, |es|) && forall x | i < x < |es| :: !ChunkOf(es[x], k)
  }

  ghost predicate LaggingAt(timeout: int, es: seq<Event>, k: Key, i: int, m: int) {
    GcEvicts(timeout, es, i, k) && OpenUntil(es, i, |es|) && FirstChunk(es, k, i, m)
  }

  lemma EvictedNext(timeout: int, es: seq<Event>, k: Key, i: int)
    requires es != [] && EvictedAt(timeout, es[..|es| - 1], k, i) && !es[|es| - 1].Shutdown?
    ensures if ChunkOf(es[|es| - 1], k) then LaggingAt(timeout, es, k, i, |es| - 1) else EvictedAt(timeout, es, k, i)
  {
    hide Evicts, ChunkOf;
    PrefixEvicts(timeout, es, |es| - 1, i, k);
  }

  lemma LaggingNext(timeout: int, es: seq<Event>, k: Key, i: int, m: int)
    requires es != [] && LaggingAt(timeout, es[..|es| - 1], k, i, m) && !es[|es| - 1].Shutdown?
    ensures LaggingAt(timeout, es, k, i, m)
  {
    hide Evicts, ChunkOf;
    PrefixEvicts(timeout, es, |es| - 1, i, k);
  }

  ghost predicate HasSource(timeout: int, es: seq<Event>, k: Key, lag: Lag) {
    match lag
    case InStep => true
    case Evicted(at) => exists i :: EvictedAt(timeout, es, k, i) && es[i].reading == at
    case Lagging(at, first) =>
      exists i, m :: LaggingAt(timeout, es, k, i, m) && es[i].reading == at && es[m].now == first
  }

  lemma {:induction false} LagSource(timeout: int, es: seq<Event>, k: Key)
    ensures HasSource(timeout, es, k, LagAt(timeout, es, k))
    decreases |es|
  {
    if es != [] {
      var n := |es| - 1;
      var rest, e := es[..n], es[n];
      var lag := LagAt(timeout, rest, k);
      LagSource(timeout, rest, k);
      if e.Tick? && GcEvicts(timeout, es, n, k) {
        assert EvictedAt(timeout, es, k, n);
      } else {
        hide EvictedAt, LaggingAt, Evicts, ChunkOf, After;
        if e != Shutdown && lag.Evicted? {
          var i :| EvictedAt(timeout, rest, k, i) && rest[i].reading == lag.at;
          EvictedNext(timeout, es, k, i);
        } else if e != Shutdown && lag.Lagging? {
          var i, m :| LaggingAt(timeout, rest, k, i, m) && rest[i].reading == lag.at && rest[m].now == lag.first;
          LaggingNext(timeout, es, k, i, m);
        }
      }
    }
  }

  /** A gap met along the run is a chunk in the gap of some GC eviction. */
  lemma GapIsInGap(timeout: int, es: seq<Event>, k: Key, p: nat)
    requires p < |es| && GapAt(timeout, LagAt(timeout, es[..p], k), es[p], k)
    ensures SomeInGap(timeout, es, k)
  {
    var before := es[..p];
    LagSource(timeout, before, k);
    if LagAt(timeout, before, k).Evicted? {
      var i :| EvictedAt(timeout, before, k, i) && before[i].reading == LagAt(timeout, before, k).at;
      PrefixEvicts(timeout, es, p, i, k);
      assert forall x | 0 <= x < p :: before[x] == es[x];
      assert InGap(timeout, es, k, i, p, p);
    } else {
      var i, m :| LaggingAt(timeout, before, k, i, m) && before[i].reading == LagAt(timeout, before, k).at &&
        before[m].now == LagAt(timeout, before, k).first;
      PrefixEvicts(timeout, es, p, i, k);
      assert forall x | 0 <= x < p :: before[x] == es[x];
      assert InGap(timeout, es, k, i, m, p);
    }
  }

  /** Without a chunk in any gap, ticks and other keys leave no trace. */
  lemma NotSeen(timeout: int, es: seq<Event>, k: Key, c: int)
    requires Timely(es) && ReadBy(es, c) && !SomeInGap(timeout, es, k)
    ensures NoGap(timeout, es, k) && AllReports(timeout, es, k) == ReplayReports(timeout, es, k)
    ensures Related(timeout, After(timeout, EMPTY, es), Replay(timeout, es, k), k, c, LagAt(timeout, es, k))
  {
    hide SomeInGap, GapAt, Related;
    forall p | 0 <= p < |es| ensures !GapAt(timeout, LagAt(timeout, es[..p], k), es[p], k) {
      if GapAt(timeout, LagAt(timeout, es[..p], k), es[p], k) {
        GapIsInGap(timeout, es, k, p);
      }
    }
    RunRelated(timeout, es, k, c);
  }

  function LastClock(es: seq<Event>): int {
    if es == [] then 0
    else
      var before, e := LastClock(es[..|es| - 1]), es[|es| - 1];
      if HasReading(e) && Reading(e) > before then Reading(e) else before
  }

  lemma {:induction false} LastClockReads(es: seq<Event>)
    ensures ReadBy(es, LastClock(es))
    decreases |es|
  {
    if es != [] {
      LastClockReads(es[..|es| - 1]);
      forall i | 0 <= i < |es| && HasReading(es[i]) ensures Reading(es[i]) <= LastClock(es) {
        assert i < |es| - 1 ==> es[..|es| - 1][i] == es[i];
      }
    }
  }

  lemma PrefixGap(timeout: int, es: seq<Event>, n: nat, k: Key, i: int, m: int, j: int)
    requires n <= |es|
    ensures InGap(timeout, es[..n], k, i, m, j) <==> j < n && InGap(timeout, es, k, i, m, j)
  {
    hide Evicts, ChunkOf;
    PrefixEvicts(timeout, es, n, i, k);
    assert forall x | 0 <= x < n :: es[..n][x] == es[x];
  }

  lemma PrefixNotSeen(timeout: int, es: seq<Event>, n: nat, k: Key)
    requires n <= |es| && !SomeInGap(timeout, es, k)
    ensures !SomeInGap(timeout, es[..n], k)
  {
    hide InGap;
    forall i, m, j ensures !InGap(timeout, es[..n], k, i, m, j) {
      PrefixGap(timeout, es, n, k, i, m, j);
    }
  }

  /** While the runs are out of step, the one with ticks has no window. */
  lemma NoWindowWhileLagging(timeout: int, es: seq<Event>, p: nat, k: Key)
    requires Timely(es) && !SomeInGap(timeout, es, k) && p <= |es|
    requires LagAt(timeout, es[..p], k) != InStep
    ensures k !in After(timeout, EMPTY, es[..p]).windows
  {
    hide SomeInGap, LagAt;
    PrefixNotSeen(timeout, es, p, k);
    LastClockReads(es[..p]);
    NotSeen(timeout, es[..p], k, LastClock(es[..p]));
  }

  lemma LagNext(timeout: int, es: seq<Event>, p: nat, k: Key)
    requires p < |es|
    ensures LagAt(timeout, es[..p + 1], k) ==
      NextLag(timeout, After(timeout, EMPTY, es[..p]), LagAt(timeout, es[..p], k), es[p], k)
  {
    assert es[..p + 1][..p] == es[..p];
  }

  /** From the eviction to the next chunk of k. */
  lemma {:induction false} StaysEvicted(timeout: int, es: seq<Event>, k: Key, i: int, p: nat)
    requires Timely(es) && !SomeInGap(timeout, es, k)
    requires GcEvicts(timeout, es, i, k) && i < p <= |es| && OpenUntil(es, i, p)
    requires forall x | i < x < p :: !ChunkOf(es[x], k)
    ensures LagAt(timeout, es[..p], k) == Evicted(es[i].reading)
    decreases p
  {
    hide SomeInGap, LagAt;
    LagNext(timeout, es, p - 1, k);
    if p > i + 1 {
      StaysEvicted(timeout, es, k, i, p - 1);
      NoWindowWhileLagging(timeout, es, p - 1, k);
    }
  }

  /** From the first chunk of k on, as long as the tombstone left by the GC is in force. */
  lemma {:induction false} StaysLagging(timeout: int, es: seq<Event>, k: Key, i: int, m: int, p: nat)
    requires Timely(es) && !SomeInGap(timeout, es, k)
    requires GcEvicts(timeout, es, i, k) && FirstChunk(es, k, i, m) && m < p <= |es| && OpenUntil(es, i, p)
    requires forall x | m < x < p && ChunkOf(es[x], k) :: es[x].now < es[i].reading + 2 * timeout
    ensures LagAt(timeout, es[..p], k) == Lagging(es[i].reading, es[m].now)
    decreases p
  {
    hide SomeInGap, LagAt, Evicts, Parse;
    LagNext(timeout, es, p - 1, k);
    if p == m + 1 {
      StaysEvicted(timeout, es, k, i, m);
    } else {
      StaysLagging(timeout, es, k, i, m, p - 1);
      NoWindowWhileLagging(timeout, es, p - 1, k);
    }
  }

  /** The first chunk in a gap is answered differently by the two runs. */
  lemma FirstInGap(timeout: int, es: seq<Event>, k: Key, i: int, m: int)
    requires es != [] && Timely(es) && !SomeInGap(timeout, es[..|es| - 1], k)
    requires InGap(timeout, es, k, i, m, |es| - 1)
    ensures GapAt(timeout, LagAt(timeout, es[..|es| - 1], k), es[|es| - 1], k)
  {
    hide LagAt, Evicts;
    var n := |es| - 1;
    var rest := es[..n];
    PrefixEvicts(timeout, es, n, i, k);
    assert rest[..n] == rest;
    if m == n {
      StaysEvicted(timeout, rest, k, i, n);
    } else {
      forall x | m < x < n && ChunkOf(rest[x], k) ensures rest[x].now < rest[i].reading + 2 * timeout {
        assert es[x].now <= es[n].now;
        PrefixGap(timeout, es, n, k, i, m, x);
      }
      StaysLagging(timeout, rest, k, i, m, n);
    }
  }

  lemma GapBounds(timeout: int, es: seq<Event>, k: Key, i: int, m: int, j: int)
    requires InGap(timeout, es, k, i, m, j)
    ensures 0 <= i < m <= j < |es| && ChunkOf(es[j], k) && es[j].Arrive?
  {
  }

  lemma PrefixTimely(es: seq<Event>, n: nat)
    requires Timely(es) && n < |es|
    ensures Timely(es[..n]) && (es[n].Arrive? ==> ReadBy(es[..n], es[n].now))
  {
  }

  lemma StillDiffer(a: seq<Outcome>, b: seq<Outcome>, x: seq<Outcome>, y: seq<Outcome>)
    requires |a| == |b| && a != b
    ensures a + x != b + y
  {
    assert (a + x)[..|a|] == a && (b + y)[..|b|] == b;
  }

  lemma {:induction false} Seen(timeout: int, es: seq<Event>, k: Key)
    requires Timely(es) && SomeInGap(timeout, es, k)
    ensures AllReports(timeout, es, k) != ReplayReports(timeout, es, k)
    decreases |es|
  {
    hide LagAt, AllReports, ReplayReports, InGap, Related, ChunkOf, GapAt, AddStep, StepState, Timely, After, Replay;
    var i, m, j :| InGap(timeout, es, k, i, m, j);
    GapBounds(timeout, es, k, i, m, j);
    var n := |es| - 1;
    var rest, e := es[..n], es[n];
    PrefixTimely(es, n);
    LastStep(timeout, es, k);
    SameCount(timeout, rest, k);
    var s, t := After(timeout, EMPTY, rest), Replay(timeout, rest, k);
    if SomeInGap(timeout, rest, k) {
      Seen(timeout, rest, k);
      StillDiffer(AllReports(timeout, rest, k), ReplayReports(timeout, rest, k),
                  if ArrivalOf(e, k) then [AddStep(timeout, s, e.seg, e.now).1] else [],
                  if ArrivalOf(e, k) then [AddStep(timeout, t, e.seg, e.now).1] else []);
    } else {
      PrefixGap(timeout, es, n, k, i, m, j);
      assert j == n;
      FirstInGap(timeout, es, k, i, m);
      NotSeen(timeout, rest, k, e.now);
      ChunkRelated(timeout, s, t, k, e.now, LagAt(timeout, rest, k), e);
      ChunkArrives(e, k);
      DifferAtEnd(AllReports(timeout, rest, k),
                  AddStep(timeout, s, e.seg, e.now).1, AddStep(timeout, t, e.seg, e.now).1);
    }
  }

  lemma ChunkArrives(e: Event, k: Key)
    requires ChunkOf(e, k)
    ensures ArrivalOf(e, k)
  {
  }

  lemma DifferAtEnd(a: seq<Outcome>, x: Outcome, y: Outcome)
    requires x != y
    ensures a + [x] != a + [y]
  {
    assert (a + [x])[|a|] == x && (a + [y])[|a|] == y;
  }

  /** When ticks and other keys can be seen: the segments of k report the same as in a run of their own,
      without any tick, exactly if no chunk of k falls in the gap of a GC eviction of k. */
  lemma TicksSeenIff(timeout: int, es: seq<Event>, k: Key)
    requires Timely(es)
    ensures Reports(timeout, EMPTY, es, k) == Reports(timeout, EMPTY, OnlySegments(es, k), k) <==>
      !exists i, m, j :: InGap(timeout, es, k, i, m, j)
  {
    hide Timely, InGap, Reports;
    if SomeInGap(timeout, es, k) {
      Seen(timeout, es, k);
    } else {
      LastClockReads(es);
      NotSeen(timeout, es, k, LastClock(es));
    }
  }

  function TwoTombstones(seg: Message, timeout: int): seq<Event> {
    [Arrive(seg, 0), Tick(timeout + 1), Arrive(seg, timeout + 2), Arrive(seg, 3 * timeout + 1)]
  }

  /** A tick that the next segment does not notice and the one after it does: a first segment opens the
      window, the GC evicts it, the segment is refused, and then arrives between the two tombstones. */
  lemma SeenByALaterSegment(timeout: int, seg: Message, byteOffset: int, data: seq<byte>)
    requires timeout > 0 && Parse(seg) == Chunk(byteOffset, true, data)
    ensures var k, es := KeyOf(seg), TwoTombstones(seg, timeout);
      && Timely(es)
      && Reports(timeout, EMPTY, es[..3], k) == Reports(timeout, EMPTY, OnlySegments(es[..3], k), k)
      && Reports(timeout, EMPTY, es, k) != Reports(timeout, EMPTY, OnlySegments(es, k), k)
  {
    hide Parse, Reports, OnlySegments;
    var k := KeyOf(seg);
    var es := TwoTombstones(seg, timeout);
    var first := es[..1];
    assert es[..1][..0] == [] && es[..1] == first;
    assert After(timeout, EMPTY, first) == AddStep(timeout, EMPTY, seg, 0).0;
    assert GcEvicts(timeout, es, 1, k);
    assert InGap(timeout, es, k, 1, 2, 3);
    TicksSeenIff(timeout, es, k);
    forall i, m, j ensures !InGap(timeout, es[..3], k, i, m, j) {
      if InGap(timeout, es[..3], k, i, m, j) {
        assert false;
      }
    }
    TicksSeenIff(timeout, es[..3], k);
  }

  /** The one-byte segment at offset 0 with More set, timeout 10. */
  lemma TickSeenAt31()
    ensures var seg := Message(0, 0, 0, 0, PROTOCOL_VERSION, 0, 0x20, RET_OK, [0, 0, 0, 1, 0]);
      var k, es := KeyOf(seg), [Arrive(seg, 0), Tick(11), Arrive(seg, 12), Arrive(seg, 31)];
      Timely(es) && Reports(10, EMPTY, es, k) != Reports(10, EMPTY, OnlySegments(es, k), k)
  {
    var payload: seq<byte> := [0, 0, 0, 1, 0];
    var seg := Message(0, 0, 0, 0, PROTOCOL_VERSION, 0, 0x20, RET_OK, payload);
    assert payload[2..] == [0, 1, 0] && payload[4..] == [0];
    assert U32(payload) == 1;
    assert Parse(seg) == Chunk(0, true, payload[4..]);
    hide Reports, Parse;
    SeenByALaterSegment(10, seg, 0, payload[4..]);
  }
}
