/** Segment followed by the reassembler gives the message back: in any order, with duplicates, and
    among the traffic of other keys. */
module TpRoundTrip {
  import opened Bytes
  import opened SomeIp
  import opened Results
  import opened TpSegment
  import opened TpWindow
  import opened TpState
  import opened TpRuns

  /** msg can be cut into chunks of `stride` bytes and put together again. */
  ghost predicate Sendable(msg: Message, stride: int) {
    && stride > 0 && stride % 16 == 0
    && 0 < |msg.payload| <= MAX_REASSEMBLED_SIZE
    && !IsTP(msg)
  }

  function Count(msg: Message, stride: int): nat
    requires stride > 0
  {
    ChunkCount(|msg.payload|, stride)
  }

  predicate IsIndex(msg: Message, stride: int, i: int)
    requires stride > 0
  {
    0 <= i < Count(msg, stride)
  }

  ghost predicate AllSeen(msg: Message, stride: int, seen: seq<int>)
    requires stride > 0
  {
    forall i | IsIndex(msg, stride, i) :: i in seen
  }

  lemma IndexInRange(msg: Message, stride: int, i: int)
    requires stride > 0
    requires IsIndex(msg, stride, i)
    ensures 0 <= i * stride < |msg.payload| && i * stride < ChunkEnd(|msg.payload|, stride, i) <= |msg.payload|
    ensures ChunkEnd(|msg.payload|, stride, i) <= i * stride + stride
    ensures (i + 1) * stride < |msg.payload| <==> i < Count(msg, stride) - 1
    ensures i == Count(msg, stride) - 1 ==> ChunkEnd(|msg.payload|, stride, i) == |msg.payload|
  {
    assert (i + 1) * stride == i * stride + stride;
    ChunkCountBounds(|msg.payload|, stride, i);
    ChunkCountBounds(|msg.payload|, stride, i + 1);
    MulMonotone(0, i, stride);
  }

  function Slice(msg: Message, stride: int, i: int): seq<byte>
    requires stride > 0 && IsIndex(msg, stride, i)
  {
    IndexInRange(msg, stride, i);
    msg.payload[i * stride..ChunkEnd(|msg.payload|, stride, i)]
  }

  /** The position p belongs to exactly one chunk, number p / stride. */
  lemma OwnerOf(msg: Message, stride: int, i: int, p: int)
    requires stride > 0 && IsIndex(msg, stride, i)
    ensures i * stride <= p < i * stride + |Slice(msg, stride, i)| <==> 0 <= p < |msg.payload| && p / stride == i
  {
    hide Count;
    IndexInRange(msg, stride, i);
    QuotientIff(p, stride, i);
    assert (i + 1) * stride == i * stride + stride;
    MulMonotone(0, i, stride);
  }

  lemma QuotientIff(p: int, stride: int, i: int)
    requires stride > 0
    ensures p / stride == i <==> i * stride <= p < i * stride + stride
  {
    var q := p / stride;
    assert q * stride <= p < q * stride + stride;
    if q < i {
      MulMonotone(q + 1, i, stride);
      assert (q + 1) * stride == q * stride + stride;
    } else if q > i {
      MulMonotone(i + 1, q, stride);
      assert (i + 1) * stride == i * stride + stride;
    }
  }

  lemma OwnerIsIndex(msg: Message, stride: int, p: int)
    requires stride > 0 && 0 <= p < |msg.payload|
    ensures IsIndex(msg, stride, p / stride)
  {
    assert p / stride * stride <= p;
    ChunkCountBounds(|msg.payload|, stride, p / stride);
  }

  // ---------------------------------------------------------------- the window while chunks arrive

  /** The chunk stored at `off` is chunk i of msg, and i has been seen. */
  ghost predicate StoredFrom(w: Window, msg: Message, stride: int, seen: seq<int>, off: int, i: int)
    requires stride > 0
  {
    && IsIndex(msg, stride, i) && i in seen
    && off == i * stride && off in w.segments && w.segments[off] == Slice(msg, stride, i)
  }

  /** w holds exactly the chunks of msg whose indices are in `seen`. */
  ghost predicate Holds(w: Window, msg: Message, stride: int, seen: seq<int>)
    requires stride > 0
  {
    && w.template == msg.(messageType := SetTpBit(msg.messageType), payload := w.template.payload)
    && (forall i | IsIndex(msg, stride, i) && i in seen :: StoredFrom(w, msg, stride, seen, i * stride, i))
    && (forall off | off in w.segments :: exists i :: StoredFrom(w, msg, stride, seen, off, i))
    && w.totalSize == (if Count(msg, stride) - 1 in seen then |msg.payload| else -1)
  }

  lemma CoveredByOwner(w: Window, msg: Message, stride: int, seen: seq<int>, off: int, p: int)
    requires Sendable(msg, stride) && Holds(w, msg, stride, seen)
    requires CoveredBy(w.segments, off, p)
    ensures 0 <= p < |msg.payload| && off == p / stride * stride && p / stride in seen
    ensures w.segments[off][p - off] == msg.payload[p]
  {
    var i :| StoredFrom(w, msg, stride, seen, off, i);
    OwnerOf(msg, stride, i, p);
    IndexInRange(msg, stride, i);
  }

  lemma HoldsCovered(w: Window, msg: Message, stride: int, seen: seq<int>, p: int)
    requires Sendable(msg, stride) && Holds(w, msg, stride, seen)
    requires 0 <= p < |msg.payload|
    ensures Covered(w.segments, p) <==> p / stride in seen
  {
    if Covered(w.segments, p) {
      var off :| CoveredBy(w.segments, off, p);
      CoveredByOwner(w, msg, stride, seen, off, p);
    }
    var i := p / stride;
    OwnerIsIndex(msg, stride, p);
    if i in seen {
      OwnerOf(msg, stride, i, p);
      assert StoredFrom(w, msg, stride, seen, i * stride, i);
      assert CoveredBy(w.segments, i * stride, p);
    }
  }

  lemma HoldsDisjoint(w: Window, msg: Message, stride: int, seen: seq<int>)
    requires Sendable(msg, stride) && Holds(w, msg, stride, seen)
    ensures Disjoint(w.segments) && Inside(w.segments, |msg.payload|)
  {
    forall a, b, p | CoveredBy(w.segments, a, p) && CoveredBy(w.segments, b, p) ensures a == b {
      CoveredByOwner(w, msg, stride, seen, a, p);
      CoveredByOwner(w, msg, stride, seen, b, p);
    }
    forall off | off in w.segments ensures 0 <= off && off + |w.segments[off]| <= |msg.payload| {
      var i :| StoredFrom(w, msg, stride, seen, off, i);
      IndexInRange(msg, stride, i);
    }
  }

  lemma AllCovered(w: Window, msg: Message, stride: int, seen: seq<int>)
    requires Sendable(msg, stride) && Holds(w, msg, stride, seen)
    ensures (forall p | 0 <= p < |msg.payload| :: Covered(w.segments, p)) <==> AllSeen(msg, stride, seen)
  {
    if AllSeen(msg, stride, seen) {
      forall p | 0 <= p < |msg.payload| ensures Covered(w.segments, p) {
        HoldsCovered(w, msg, stride, seen, p);
        OwnerIsIndex(msg, stride, p);
      }
    }
    if forall p | 0 <= p < |msg.payload| :: Covered(w.segments, p) {
      forall i | IsIndex(msg, stride, i) ensures i in seen {
        IndexInRange(msg, stride, i);
        OwnerOf(msg, stride, i, i * stride);
        HoldsCovered(w, msg, stride, seen, i * stride);
      }
    }
  }

  /** The byte counter says complete exactly when every chunk has been seen. */
  lemma CompleteIffAllSeen(w: Window, k: Key, msg: Message, stride: int, seen: seq<int>)
    requires Sendable(msg, stride) && Holds(w, msg, stride, seen) && Good(w, k)
    ensures Complete(w) <==> AllSeen(msg, stride, seen)
  {
    HoldsDisjoint(w, msg, stride, seen);
    AllCovered(w, msg, stride, seen);
    CounterIsExact(w.segments, |msg.payload|);
    var last := Count(msg, stride) - 1;
    ChunkCountBounds(|msg.payload|, stride, 0);
    assert IsIndex(msg, stride, last);
  }

  /** A complete window delivers the original message and nothing else. */
  lemma DeliversOriginal(w: Window, k: Key, msg: Message, stride: int, seen: seq<int>, m: Message)
    requires Sendable(msg, stride) && Holds(w, msg, stride, seen) && Good(w, k) && Complete(w)
    ensures Delivers(w, m) <==> m == msg
  {
    HoldsDisjoint(w, msg, stride, seen);
    BaseUndoesSet(msg.messageType);
    forall order | IterationOrder(w.segments, order)
      ensures Rebuilt(w, CopyAll(w.segments, order, w.totalSize)) == msg
    {
      CopiesPayload(w, msg, stride, seen, order);
    }
    OrderExists(w.segments);
  }

  lemma CopiesPayload(w: Window, msg: Message, stride: int, seen: seq<int>, order: seq<int>)
    requires Sendable(msg, stride) && Holds(w, msg, stride, seen)
    requires w.totalSize == |msg.payload| && SumLengths(w.segments) >= w.totalSize
    requires IterationOrder(w.segments, order)
    ensures CopyAll(w.segments, order, w.totalSize) == msg.payload
  {
    HoldsDisjoint(w, msg, stride, seen);
    var payload := CopyAll(w.segments, order, w.totalSize);
    forall p | 0 <= p < |msg.payload| ensures payload[p] == msg.payload[p] {
      NoGap(w.segments, order, w.totalSize, p);
      var off :| CoveredBy(w.segments, off, p) && payload[p] == w.segments[off][p - off];
      CoveredByOwner(w, msg, stride, seen, off, p);
    }
  }

  // ---------------------------------------------------------------- one arrival

  /** The window after chunk i of msg has been stored. */
  function WithChunk(w: Window, msg: Message, stride: int, i: int): Window
    requires stride > 0 && IsIndex(msg, stride, i)
  {
    Store(w, i * stride, i < Count(msg, stride) - 1, Slice(msg, stride, i))
  }

  lemma StoreHolds(w: Window, msg: Message, stride: int, seen: seq<int>, i: int)
    requires Sendable(msg, stride) && Holds(w, msg, stride, seen) && IsIndex(msg, stride, i)
    ensures Holds(WithChunk(w, msg, stride, i), msg, stride, seen + [i])
  {
    hide WithChunk, Slice, StoredFrom, Count;
    var w1, seen1 := WithChunk(w, msg, stride, i), seen + [i];
    NewlyStored(w, msg, stride, seen, i);
    TotalWithChunk(w, msg, stride, seen, i);
    forall off | off in w1.segments ensures exists j :: StoredFrom(w1, msg, stride, seen1, off, j) {
      if off != i * stride {
        var j :| StoredFrom(w, msg, stride, seen, off, j);
        StaysStored(w, msg, stride, seen, i, off, j);
      }
    }
    forall j | IsIndex(msg, stride, j) && j in seen1 ensures StoredFrom(w1, msg, stride, seen1, j * stride, j) {
      if j != i {
        StaysStored(w, msg, stride, seen, i, j * stride, j);
      }
    }
  }

  lemma TotalWithChunk(w: Window, msg: Message, stride: int, seen: seq<int>, i: int)
    requires Sendable(msg, stride) && Holds(w, msg, stride, seen) && IsIndex(msg, stride, i)
    ensures var w1 := WithChunk(w, msg, stride, i);
      && w1.template == w.template
      && (forall off | off in w1.segments :: off in w.segments || off == i * stride)
      && w1.totalSize == if Count(msg, stride) - 1 in seen + [i] then |msg.payload| else -1
  {
    hide StoredFrom;
    IndexInRange(msg, stride, i);
  }

  lemma StaysStored(w: Window, msg: Message, stride: int, seen: seq<int>, i: int, off: int, j: int)
    requires stride > 0 && IsIndex(msg, stride, i) && StoredFrom(w, msg, stride, seen, off, j)
    ensures StoredFrom(WithChunk(w, msg, stride, i), msg, stride, seen + [i], off, j)
  {
    hide Slice, Count;
  }

  lemma NewlyStored(w: Window, msg: Message, stride: int, seen: seq<int>, i: int)
    requires Sendable(msg, stride) && Holds(w, msg, stride, seen) && IsIndex(msg, stride, i)
    ensures StoredFrom(WithChunk(w, msg, stride, i), msg, stride, seen + [i], i * stride, i)
  {
    hide Slice, Count;
    if i * stride in w.segments {
      var j :| StoredFrom(w, msg, stride, seen, i * stride, j);
      SameProduct(i, j, stride);
    }
  }

  lemma SameProduct(i: int, j: int, stride: int)
    requires stride > 0 && i * stride == j * stride
    ensures i == j
  {
    assert (i - j) * stride == 0;
  }

  lemma OpenedHolds(seg: Message, expires: int, msg: Message, stride: int, seen: seq<int>)
    requires Sendable(msg, stride)
    requires seg == msg.(messageType := SetTpBit(msg.messageType), payload := seg.payload)
    requires forall i | IsIndex(msg, stride, i) :: i !in seen
    ensures Holds(Opened(seg, expires), msg, stride, seen)
  {
    ChunkCountBounds(|msg.payload|, stride, 0);
    assert IsIndex(msg, stride, Count(msg, stride) - 1);
  }

  // ---------------------------------------------------------------- a run that carries one message

  /** A tick that reads the clock no later than hi, or a message that is no TP chunk with msg's identifiers. */
  ghost predicate Foreign(e: Event, msg: Message, hi: int) {
    match e
    case Arrive(seg, _) => !SameIds(seg, msg) || !Parse(seg).Chunk?
    case Tick(reading) => reading <= hi
    case Shutdown => false
  }

  /** Event e delivers chunk i of msg (i >= 0) within [lo, hi], or (i == -1) it is foreign. */
  ghost predicate Carries(e: Event, i: int, msg: Message, stride: int, lo: int, hi: int)
    requires stride > 0
  {
    if i == -1 then Foreign(e, msg, hi)
    else
      IsIndex(msg, stride, i) && e.Arrive? && lo <= e.now <= hi &&
      (ChunkCountBounds(|msg.payload|, stride, i); e.seg == SegmentAt(msg, stride, i))
  }

  /** The events es carry chunks of msg as the indices say, all of them before the window can expire. */
  ghost predicate Transfer(timeout: int, es: seq<Event>, indices: seq<int>, msg: Message, stride: int, lo: int, hi: int)
    requires stride > 0
  {
    && |indices| == |es| && hi <= lo + timeout
    && forall j | 0 <= j < |es| :: Carries(es[j], indices[j], msg, stride, lo, hi)
  }

  /** The state that a transfer finds: no window for the key, and no tombstone in force at lo. */
  ghost predicate Ready(s: State, k: Key, lo: int) {
    k !in s.windows && (k in s.tombstones ==> s.tombstones[k] <= lo)
  }

  /** The state of the key while a transfer is under way. */
  ghost predicate Progress(s: State, msg: Message, stride: int, seen: seq<int>, lo: int, hi: int)
    requires stride > 0
  {
    var k := KeyOf(msg);
    if forall i | IsIndex(msg, stride, i) :: i !in seen
    then Ready(s, k, lo)
    else k in s.windows && Holds(s.windows[k], msg, stride, seen) && hi <= s.windows[k].expires
  }

  lemma ForeignKeepsProgress(
    timeout: int, s: State, e: Event, msg: Message, stride: int, seen: seq<int>, lo: int, hi: int)
    requires stride > 0 && hi <= lo + timeout
    requires Progress(s, msg, stride, seen, lo, hi)
    requires Carries(e, -1, msg, stride, lo, hi)
    ensures Progress(StepState(timeout, s, e), msg, stride, seen + [-1], lo, hi)
  {
    var s1 := StepState(timeout, s, e);
    var k := KeyOf(msg);
    ForeignKeepsKey(timeout, s, e, msg, lo, hi);
    hide Holds, StepState, Ready, KeyOf;
    assert forall i :: i in seen + [-1] <==> i in seen || i == -1;
    if k in s.windows && Holds(s.windows[k], msg, stride, seen) && exists i :: IsIndex(msg, stride, i) && i in seen {
      HoldsMore(s.windows[k], msg, stride, seen);
    }
  }

  /** Neither other keys' segments nor early ticks touch the key. */
  lemma ForeignKeepsKey(timeout: int, s: State, e: Event, msg: Message, lo: int, hi: int)
    requires Foreign(e, msg, hi)
    ensures var s1, k := StepState(timeout, s, e), KeyOf(msg);
      && (k in s.windows && hi <= s.windows[k].expires ==> k in s1.windows && s1.windows[k] == s.windows[k])
      && (Ready(s, k, lo) ==> Ready(s1, k, lo))
  {
    if e.Arrive? {
      SameKeyIff(e.seg, msg);
    }
    hide Parse, Store, Complete, KeyOf;
  }

  lemma HoldsMore(w: Window, msg: Message, stride: int, seen: seq<int>)
    requires stride > 0 && Holds(w, msg, stride, seen) && Count(msg, stride) > 0
    ensures Holds(w, msg, stride, seen + [-1])
  {
    forall i | IsIndex(msg, stride, i) && i in seen + [-1]
      ensures StoredFrom(w, msg, stride, seen + [-1], i * stride, i)
    {
      assert StoredFrom(w, msg, stride, seen, i * stride, i);
    }
    forall off | off in w.segments ensures exists i :: StoredFrom(w, msg, stride, seen + [-1], off, i) {
      var i :| StoredFrom(w, msg, stride, seen, off, i);
      assert StoredFrom(w, msg, stride, seen + [-1], off, i);
    }
  }

  /** The segment completed a window, and msg is the one message that can come out of it. */
  ghost predicate DeliversOnly(o: Outcome, msg: Message) {
    o.Completed? && forall m :: Delivers(o.window, m) <==> m == msg
  }

  /** One chunk of the message: still pending, or complete when it is the last one missing. */
  lemma ChunkKeepsProgress(
    timeout: int, s: State, e: Event, i: int, msg: Message, stride: int, seen: seq<int>, lo: int, hi: int)
    requires Sendable(msg, stride) && Inv(s) && i != -1 && hi <= lo + timeout
    requires Progress(s, msg, stride, seen, lo, hi)
    requires Carries(e, i, msg, stride, lo, hi)
    ensures var (s1, outcome) := AddStep(timeout, s, e.seg, e.now);
      if AllSeen(msg, stride, seen + [i])
      then DeliversOnly(outcome, msg)
      else outcome == Pending && Progress(s1, msg, stride, seen + [i], lo, hi)
  {
    var k := KeyOf(msg);
    IndexInRange(msg, stride, i);
    StrideOffset(stride, i);
    ParseSegmentAt(msg, stride, i);
    assert Parse(e.seg) == Chunk(i * stride, i < Count(msg, stride) - 1, Slice(msg, stride, i));
    if k !in s.windows {
      OpenedHolds(e.seg, e.now + timeout, msg, stride, seen);
    }
    var w := Admit(timeout, s, e.seg, e.now).window;
    assert Holds(w, msg, stride, seen) && hi <= w.expires;
    StoreHolds(w, msg, stride, seen, i);
    var w1 := Store(w, i * stride, i < Count(msg, stride) - 1, Slice(msg, stride, i));
    StoredIsGood(w, k, i, msg, stride);
    CompleteIffAllSeen(w1, k, msg, stride, seen + [i]);
    if Complete(w1) {
      forall m ensures Delivers(w1, m) <==> m == msg {
        DeliversOriginal(w1, k, msg, stride, seen + [i], m);
      }
    }
  }

  lemma StrideOffset(stride: int, i: int)
    requires stride % 16 == 0
    ensures i * stride % 16 == 0
  {
    assert i * stride == i * (stride / 16) * 16;
  }

  lemma StoredIsGood(w: Window, k: Key, i: int, msg: Message, stride: int)
    requires Sendable(msg, stride) && IsIndex(msg, stride, i) && Good(w, k)
    ensures Good(Store(w, i * stride, i < Count(msg, stride) - 1, Slice(msg, stride, i)), k)
  {
    IndexInRange(msg, stride, i);
    StrideOffset(stride, i);
    StoreGood(w, k, i * stride, i < Count(msg, stride) - 1, Slice(msg, stride, i));
  }

  lemma {:induction false} TransferProgress(
    timeout: int, s: State, es: seq<Event>, indices: seq<int>, msg: Message, stride: int, lo: int, hi: int)
    requires Sendable(msg, stride) && Inv(s) && Ready(s, KeyOf(msg), lo)
    requires Transfer(timeout, es, indices, msg, stride, lo, hi)
    requires !AllSeen(msg, stride, indices)
    ensures Progress(After(timeout, s, es), msg, stride, indices, lo, hi)
    decreases |es|
  {
    if es != [] {
      var n := |es| - 1;
      assert indices[..n] + [indices[n]] == indices;
      InvAlways(timeout, s, es[..n]);
      TransferProgress(timeout, s, es[..n], indices[..n], msg, stride, lo, hi);
      if indices[n] == -1 {
        ForeignKeepsProgress(timeout, After(timeout, s, es[..n]), es[n], msg, stride, indices[..n], lo, hi);
      } else {
        ChunkKeepsProgress(timeout, After(timeout, s, es[..n]), es[n], indices[n], msg, stride, indices[..n], lo, hi);
      }
    }
  }

  /** The law for chunks of one length: cut a message into chunks and let them arrive in any order, with any
      repetitions, among ticks and the segments of any other keys, before the window can expire. Every
      Add before the one that brings the last missing chunk reports nothing; that one completes, and the
      message delivered is the original in every field, whatever the map iteration order. */
  lemma RoundTrip(
    timeout: int, s: State, es: seq<Event>, indices: seq<int>, msg: Message, stride: int, lo: int, hi: int)
    requires Sendable(msg, stride) && Inv(s) && Ready(s, KeyOf(msg), lo)
    requires Transfer(timeout, es, indices, msg, stride, lo, hi)
    requires es != [] && AllSeen(msg, stride, indices) && !AllSeen(msg, stride, indices[..|es| - 1])
    ensures forall j | 0 <= j < |es| - 1 && indices[j] != -1 :: OutcomeAt(timeout, s, es, j) == Pending
    ensures es[|es| - 1].Arrive? && DeliversOnly(OutcomeAt(timeout, s, es, |es| - 1), msg)
  {
    var n := |es| - 1;
    forall j | 0 <= j < n && indices[j] != -1 ensures OutcomeAt(timeout, s, es, j) == Pending {
      var i :| IsIndex(msg, stride, i) && i !in indices[..n];
      assert i !in indices[..j + 1];
      ChunkOutcome(timeout, s, es, indices, msg, stride, lo, hi, j);
    }
    var i :| IsIndex(msg, stride, i) && i !in indices[..n];
    assert i in indices && indices[n] == i;
    assert indices[..n + 1] == indices;
    ChunkOutcome(timeout, s, es, indices, msg, stride, lo, hi, n);
  }

  lemma ChunkOutcome(
    timeout: int, s: State, es: seq<Event>, indices: seq<int>, msg: Message, stride: int, lo: int, hi: int, j: nat)
    requires Sendable(msg, stride) && Inv(s) && Ready(s, KeyOf(msg), lo)
    requires Transfer(timeout, es, indices, msg, stride, lo, hi)
    requires j < |es| && indices[j] != -1
    requires !AllSeen(msg, stride, indices[..j])
    ensures var outcome := OutcomeAt(timeout, s, es, j);
      if AllSeen(msg, stride, indices[..j + 1])
      then DeliversOnly(outcome, msg)
      else outcome == Pending
  {
    assert indices[..j + 1] == indices[..j] + [indices[j]];
    InvAlways(timeout, s, es[..j]);
    TransferProgress(timeout, s, es[..j], indices[..j], msg, stride, lo, hi);
    ChunkKeepsProgress(timeout, After(timeout, s, es[..j]), es[j], indices[j], msg, stride, indices[..j], lo, hi);
  }

  // ---------------------------------------------------------------- the law for what Segment returns

  /** Each event adds the segment that `indices` names, within [lo, hi], or is foreign to msg. */
  ghost predicate Delivery(
    timeout: int, es: seq<Event>, indices: seq<int>, segs: seq<Message>, msg: Message, lo: int, hi: int)
  {
    && |indices| == |es| && hi <= lo + timeout
    && forall j | 0 <= j < |es| ::
         if indices[j] == -1 then Foreign(es[j], msg, hi)
         else 0 <= indices[j] < |segs| && es[j].Arrive? && lo <= es[j].now <= hi && es[j].seg == segs[indices[j]]
  }

  ghost predicate AllDelivered(segs: seq<Message>, indices: seq<int>) {
    forall i | 0 <= i < |segs| :: i in indices
  }

  /** Add hands out msg, and can hand out nothing else. */
  ghost predicate Yields(o: Outcome, msg: Message) {
    o == PassedThrough(msg) || DeliversOnly(o, msg)
  }

  /** The law of SOME/IP-TP. Let the output of Segment arrive in any order, with any repetitions, among ticks
      and the segments of any other keys, before the window can expire: nothing is returned until the last
      missing segment, and then the original message in every field. */
  lemma SegmentRoundTrip(
    timeout: int, s: State, es: seq<Event>, indices: seq<int>, msg: Message, segmentSize: int, lo: int, hi: int)
    requires (segmentSize == 0 || segmentSize >= 16) && msg.messageType / 32 % 2 == 0
    requires |msg.payload| <= 67108864 || |msg.payload| <= segmentSize
    requires Inv(s) && Ready(s, KeyOf(msg), lo)
    requires var segs := Segments(msg, segmentSize).value;
      && Delivery(timeout, es, indices, segs, msg, lo, hi) && es != []
      && AllDelivered(segs, indices) && !AllDelivered(segs, indices[..|es| - 1])
    ensures forall j | 0 <= j < |es| - 1 && indices[j] != -1 :: OutcomeAt(timeout, s, es, j) == Pending
    ensures es[|es| - 1].Arrive? && Yields(OutcomeAt(timeout, s, es, |es| - 1), msg)
  {
    hide Parse, SegmentAt, Inv, Ready, Foreign, KeyOf;
    var segs, stride, n := Segments(msg, segmentSize).value, Stride(segmentSize), |es| - 1;
    if |msg.payload| > Effective(segmentSize) {
      RoundTrip(timeout, s, es, indices, msg, stride, lo, hi);
    } else {
      assert segs == [msg] && 0 !in indices[..n];
      assert indices == indices[..n] + [indices[n]];
      assert 0 in indices && indices[n] == 0;
      forall j | 0 <= j < n ensures indices[j] == -1 {
        assert indices[j] == indices[..n][j];
      }
      NotTPPasses(timeout, After(timeout, s, es[..n]), msg, es[n].now);
    }
  }

  lemma NotTPPasses(timeout: int, s: State, msg: Message, now: int)
    requires !IsTP(msg)
    ensures AddStep(timeout, s, msg, now).1 == PassedThrough(msg)
  {
  }

  lemma SamePast(timeout: int, s: State, es: seq<Event>, n: nat, j: nat)
    requires j < n <= |es| && es[j].Arrive?
    ensures OutcomeAt(timeout, s, es[..n], j) == OutcomeAt(timeout, s, es, j)
  {
    assert es[..n][..j] == es[..j];
  }

  lemma PrefixDelivery(
    timeout: int, es: seq<Event>, indices: seq<int>, segs: seq<Message>, msg: Message, lo: int, hi: int, n: nat)
    requires Delivery(timeout, es, indices, segs, msg, lo, hi) && n <= |es|
    ensures Delivery(timeout, es[..n], indices[..n], segs, msg, lo, hi)
  {
    hide Foreign;
  }

  /** The message comes back at event p, which adds the last missing segment. */
  lemma ReturnsAt(
    timeout: int, es: seq<Event>, indices: seq<int>, msg: Message, segmentSize: int, lo: int, hi: int, p: nat)
    requires (segmentSize == 0 || segmentSize >= 16) && p < |es|
    requires msg.messageType / 32 % 2 == 0 && |msg.payload| <= 67108864
    requires var segs := Segments(msg, segmentSize).value;
      && Delivery(timeout, es, indices, segs, msg, lo, hi)
      && AllDelivered(segs, indices[..p + 1]) && !AllDelivered(segs, indices[..p])
    ensures es[p].Arrive? && Yields(OutcomeAt(timeout, EMPTY, es, p), msg)
  {
    hide Foreign, Parse, Segments, Yields, Inv;
    InvAtStart();
    PrefixDelivery(timeout, es, indices, Segments(msg, segmentSize).value, msg, lo, hi, p + 1);
    assert indices[..p + 1][..p] == indices[..p];
    SegmentRoundTrip(timeout, EMPTY, es[..p + 1], indices[..p + 1], msg, segmentSize, lo, hi);
    SamePast(timeout, EMPTY, es, p + 1, p);
  }

  /** Two messages that differ in one of the three identifiers do not disturb each other: let their segments
      arrive interleaved in any way, and both come back, each when its own last segment arrives (p and q). */
  lemma InterleavedRoundTrip(
    timeout: int, es: seq<Event>, a: Message, b: Message, ia: seq<int>, ib: seq<int>, segmentSize: int,
    lo: int, hi: int, p: nat, q: nat)
    requires segmentSize == 0 || segmentSize >= 16
    requires a.messageType / 32 % 2 == 0 && |a.payload| <= 67108864
    requires b.messageType / 32 % 2 == 0 && |b.payload| <= 67108864
    requires a.serviceID != b.serviceID || a.methodID != b.methodID || a.sessionID != b.sessionID
    requires |ia| == |ib| == |es| && p < |es| && q < |es| && hi <= lo + timeout
    requires var sa, sb := Segments(a, segmentSize).value, Segments(b, segmentSize).value;
      && (forall j | 0 <= j < |es| :: es[j].Arrive? && lo <= es[j].now <= hi &&
            if ib[j] == -1 then 0 <= ia[j] < |sa| && es[j].seg == sa[ia[j]]
            else ia[j] == -1 && 0 <= ib[j] < |sb| && es[j].seg == sb[ib[j]])
      && AllDelivered(sa, ia[..p + 1]) && !AllDelivered(sa, ia[..p])
      && AllDelivered(sb, ib[..q + 1]) && !AllDelivered(sb, ib[..q])
    ensures Yields(OutcomeAt(timeout, EMPTY, es, p), a) && Yields(OutcomeAt(timeout, EMPTY, es, q), b)
  {
    var sa, sb := Segments(a, segmentSize).value, Segments(b, segmentSize).value;
    forall j | 0 <= j < |es| && ia[j] == -1 ensures Foreign(es[j], a, hi) {
      SegmentIds(b, segmentSize, ib[j]);
    }
    forall j | 0 <= j < |es| && ib[j] == -1 ensures Foreign(es[j], b, hi) {
      SegmentIds(a, segmentSize, ia[j]);
    }
    hide Foreign, Parse, Segments, Yields, AllDelivered;
    ReturnsAt(timeout, es, ia, a, segmentSize, lo, hi, p);
    ReturnsAt(timeout, es, ib, b, segmentSize, lo, hi, q);
  }

  lemma SegmentIds(msg: Message, segmentSize: int, i: nat)
    requires Segments(msg, segmentSize).Success? && i < |Segments(msg, segmentSize).value|
    ensures SameIds(Segments(msg, segmentSize).value[i], msg)
  {
  }

  // ---------------------------------------------------------------- exactly when the law holds

  /** The segments of a message, added in order at one time. */
  function InOrder(segs: seq<Message>, now: int): seq<Event> {
    seq(|segs|, i requires 0 <= i < |segs| => Arrive(segs[i], now))
  }

  /** Add hands out msg. */
  ghost predicate Returns(o: Outcome, msg: Message) {
    o == PassedThrough(msg) || (o.Completed? && Delivers(o.window, msg))
  }

  /** Sending in order through a fresh reassembler returns the message if and only if it does not carry
      the TP bit already and either fits one segment or is within the reassembly bound. */
  lemma RoundTripIff(timeout: int, msg: Message, segmentSize: int, now: int)
    requires timeout >= 0 && (segmentSize == 0 || segmentSize >= 16)
    ensures
      var segs := Segments(msg, segmentSize).value;
      segs != [] &&
      (Returns(OutcomeAt(timeout, EMPTY, InOrder(segs, now), |segs| - 1), msg) <==>
        msg.messageType / 32 % 2 == 0 && (|msg.payload| <= 67108864 || |msg.payload| <= segmentSize))
  {
    var segs := Segments(msg, segmentSize).value;
    var es := InOrder(segs, now);
    if |msg.payload| > Effective(segmentSize) {
      ManySegmentsIff(timeout, msg, segmentSize, now);
    } else {
      if IsTP(msg) {
        NeverReturnsTP(timeout, es, 0, msg);
      }
    }
  }

  lemma NeverReturnsTP(timeout: int, es: seq<Event>, i: nat, msg: Message)
    requires i < |es| && es[i].Arrive? && IsTP(es[i].seg)
    requires IsTP(msg) || |msg.payload| > MAX_REASSEMBLED_SIZE
    ensures !Returns(OutcomeAt(timeout, EMPTY, es, i), msg)
  {
    var o := OutcomeAt(timeout, EMPTY, es, i);
    if o.Completed? && Delivers(o.window, msg) {
      EveryDeliveryBounded(timeout, es, i, msg);
    }
  }

  lemma ManySegmentsIff(timeout: int, msg: Message, segmentSize: int, now: int)
    requires timeout >= 0 && Effective(segmentSize) >= 16 && |msg.payload| > Effective(segmentSize)
    ensures
      var segs := Segments(msg, segmentSize).value;
      Returns(OutcomeAt(timeout, EMPTY, InOrder(segs, now), |segs| - 1), msg) <==>
        !IsTP(msg) && |msg.payload| <= MAX_REASSEMBLED_SIZE
  {
    hide Returns, OutcomeAt, InOrder;
    var segs := Segments(msg, segmentSize).value;
    BaseUndoesSet(msg.messageType);
    if !IsTP(msg) && |msg.payload| <= MAX_REASSEMBLED_SIZE {
      InOrderReturns(timeout, msg, segmentSize, now);
    } else {
      LastNeverReturns(timeout, msg, segmentSize, now);
    }
  }

  lemma LastNeverReturns(timeout: int, msg: Message, segmentSize: int, now: int)
    requires Effective(segmentSize) >= 16 && |msg.payload| > Effective(segmentSize)
    requires IsTP(msg) || |msg.payload| > MAX_REASSEMBLED_SIZE
    ensures var segs := Segments(msg, segmentSize).value;
      !Returns(OutcomeAt(timeout, EMPTY, InOrder(segs, now), |segs| - 1), msg)
  {
    hide Returns, OutcomeAt, Parse;
    var segs := Segments(msg, segmentSize).value;
    BaseUndoesSet(msg.messageType);
    NeverReturnsTP(timeout, InOrder(segs, now), |segs| - 1, msg);
  }

  lemma InOrderReturns(timeout: int, msg: Message, segmentSize: int, now: int)
    requires timeout >= 0 && Effective(segmentSize) >= 16 && |msg.payload| > Effective(segmentSize)
    requires !IsTP(msg) && |msg.payload| <= MAX_REASSEMBLED_SIZE
    ensures var segs := Segments(msg, segmentSize).value;
      Returns(OutcomeAt(timeout, EMPTY, InOrder(segs, now), |segs| - 1), msg)
  {
    hide OutcomeAt, Parse, SegmentAt, Inv;
    var segs, stride := Segments(msg, segmentSize).value, Stride(segmentSize);
    var es, n := InOrder(segs, now), |segs|;
    var indices := seq(n, i => i);
    forall i | IsIndex(msg, stride, i) ensures i in indices {
      assert indices[i] == i;
    }
    assert IsIndex(msg, stride, n - 1) && n - 1 !in indices[..n - 1];
    InvAtStart();
    RoundTrip(timeout, EMPTY, es, indices, msg, stride, now, now);
  }

  lemma InvAtStart()
    ensures Inv(EMPTY)
  {
  }
}
