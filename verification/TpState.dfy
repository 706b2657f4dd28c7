/** The reassembler as a state machine on values: what one segment, one GC sweep and Close do to the
    windows and tombstones (tp/tp.go). Times are integers; a sweep carries its own clock reading,
    because gcLoop reads the clock before it takes the lock. */
module TpState {
  import opened Bytes
  import opened SomeIp
  import opened TpSegment
  import opened TpWindow

  datatype Key = Key(serviceID: uint16, methodID: uint16, sessionID: uint16)

  function KeyOf(m: Message): Key {
    Key(m.serviceID, m.methodID, m.sessionID)
  }

  /** The three fields by which segments belong together. */
  predicate SameIds(a: Message, b: Message) {
    a.serviceID == b.serviceID && a.methodID == b.methodID && a.sessionID == b.sessionID
  }

  lemma SameKeyIff(a: Message, b: Message)
    ensures KeyOf(a) == KeyOf(b) <==> SameIds(a, b)
  {
  }

  datatype State = State(windows: map<Key, Window>, tombstones: map<Key, int>)

  const EMPTY := State(map[], map[])

  /** What Add reports. A completed window stands for the message, because overlapping chunks make the
      payload depend on the map iteration order: Delivers says which messages it can be. */
  datatype Outcome =
    | Pending
    | PassedThrough(msg: Message)
    | Completed(window: Window)
    | RejectedMalformed
    | RejectedTimeout

  function Rebuilt(w: Window, payload: seq<byte>): Message {
    w.template.(messageType := BaseMessageType(w.template.messageType), payload := payload)
  }

  ghost predicate Delivers(w: Window, msg: Message) {
    w.totalSize >= 0 &&
    exists order ::
      IterationOrder(w.segments, order) && msg == Rebuilt(w, CopyAll(w.segments, order, w.totalSize))
  }

  // ---------------------------------------------------------------- steps

  /** The window, if any, that takes a chunk for key k at time `now`. */
  datatype Admission = Refused(expired: bool) | Admitted(window: Window)

  function Admit(timeout: int, s: State, seg: Message, now: int): Admission {
    var k := KeyOf(seg);
    if k in s.windows then
      if now > s.windows[k].expires then Refused(true) else Admitted(s.windows[k])
    else if k in s.tombstones && now < s.tombstones[k] then Refused(false)
    else Admitted(Opened(seg, now + timeout))
  }

  function AddStep(timeout: int, s: State, seg: Message, now: int): (State, Outcome) {
    var k := KeyOf(seg);
    match Parse(seg)
    case NotTP => (s, PassedThrough(seg))
    case Malformed => (s, RejectedMalformed)
    case Chunk(offset, more, data) =>
      match Admit(timeout, s, seg, now)
      case Refused(expired) =>
        (if expired then State(s.windows - {k}, s.tombstones[k := now + 2 * timeout]) else s, RejectedTimeout)
      case Admitted(w) =>
        var w1 := Store(w, offset, more, data);
        if Complete(w1) then (s.(windows := s.windows - {k}), Completed(w1))
        else (s.(windows := s.windows[k := w1]), Pending)
  }

  /** AddStep in two moves: the admitted window is in the map before the chunk is stored in it. */
  lemma AddThroughAdmit(timeout: int, s: State, seg: Message, now: int, offset: int, more: bool, data: seq<byte>)
    requires Parse(seg) == Chunk(offset, more, data) && Admit(timeout, s, seg, now).Admitted?
    ensures
      var k, w := KeyOf(seg), Admit(timeout, s, seg, now).window;
      var s1, w1 := s.(windows := s.windows[k := w]), Store(w, offset, more, data);
      AddStep(timeout, s, seg, now) ==
        if Complete(w1) then (s1.(windows := s1.windows - {k}), Completed(w1))
        else (s1.(windows := s1.windows[k := w1]), Pending)
  {
    var k, w := KeyOf(seg), Admit(timeout, s, seg, now).window;
    assert s.windows[k := w] - {k} == s.windows - {k};
    assert s.windows[k := w][k := Store(w, offset, more, data)] == s.windows[k := Store(w, offset, more, data)];
  }

  function ExpiredKeys(s: State, reading: int): set<Key> {
    set k | k in s.windows && reading > s.windows[k].expires
  }

  function Marked(tombstones: map<Key, int>, keys: set<Key>, expiry: int): map<Key, int> {
    tombstones + map k | k in keys :: expiry
  }

  lemma MarkedInsert(tombstones: map<Key, int>, keys: set<Key>, k: Key, expiry: int)
    ensures Marked(tombstones, keys, expiry)[k := expiry] == Marked(tombstones, keys + {k}, expiry)
  {
  }

  function Unexpired(tombstones: map<Key, int>, reading: int): map<Key, int> {
    map k | k in tombstones && !(reading > tombstones[k]) :: tombstones[k]
  }

  /** One GC tick: evict expired windows, leaving tombstones, then drop the tombstones that have passed. */
  function SweepStep(timeout: int, s: State, reading: int): State {
    var expired := ExpiredKeys(s, reading);
    State(s.windows - expired, Unexpired(Marked(s.tombstones, expired, reading + 2 * timeout), reading))
  }

  // ---------------------------------------------------------------- invariant

  ghost predicate GoodChunks(chunks: Chunks) {
    forall off | off in chunks ::
      off % 16 == 0 && 0 <= off && off + |chunks[off]| <= MAX_REASSEMBLED_SIZE
  }

  /** What holds of a window for arbitrary segments. */
  ghost predicate Good(w: Window, k: Key) {
    && KeyOf(w.template) == k && IsTP(w.template)
    && GoodChunks(w.segments)
    && w.received == SumLengths(w.segments)
    && -1 <= w.totalSize <= MAX_REASSEMBLED_SIZE
  }

  /** Every stored window is good and still incomplete. */
  ghost predicate Inv(s: State) {
    forall k | k in s.windows :: Good(s.windows[k], k) && !Complete(s.windows[k])
  }

  lemma StoreGood(w: Window, k: Key, offset: int, more: bool, data: seq<byte>)
    requires Good(w, k)
    requires offset % 16 == 0 && 0 <= offset && offset + |data| <= MAX_REASSEMBLED_SIZE
    ensures Good(Store(w, offset, more, data), k)
  {
    if offset !in w.segments {
      SumInsert(w.segments, offset, data);
    }
  }

  lemma AddKeepsInv(timeout: int, s: State, seg: Message, now: int)
    requires Inv(s)
    ensures Inv(AddStep(timeout, s, seg, now).0)
    ensures AddStep(timeout, s, seg, now).1.Completed? ==>
      var w := AddStep(timeout, s, seg, now).1.window; Good(w, KeyOf(seg)) && Complete(w)
  {
    var p := Parse(seg);
    if p.Chunk? {
      ParseInRange(seg);
      match Admit(timeout, s, seg, now)
      case Refused(_) =>
      case Admitted(w) =>
        assert Good(w, KeyOf(seg));
        StoreGood(w, KeyOf(seg), p.offset, p.more, p.data);
    }
  }

  lemma SweepKeepsInv(timeout: int, s: State, reading: int)
    requires Inv(s)
    ensures Inv(SweepStep(timeout, s, reading))
  {
  }

  /** Whatever the segments were, a delivered message has the TP bit cleared and is within the bound. */
  lemma DeliveredBounded(w: Window, k: Key, msg: Message)
    requires Good(w, k) && Delivers(w, msg)
    ensures |msg.payload| == w.totalSize <= MAX_REASSEMBLED_SIZE
    ensures !IsTP(msg) && KeyOf(msg) == k
  {
  }

  /** A complete window can always be delivered: the map has an iteration order. */
  lemma {:induction false} OrderExists(chunks: Chunks)
    ensures exists order :: IterationOrder(chunks, order)
    decreases |chunks|
  {
    if chunks.Keys == {} {
      assert IterationOrder(chunks, []);
    } else {
      HasElement(chunks.Keys);
      var off :| off in chunks.Keys;
      OrderExists(chunks - {off});
      var rest :| IterationOrder(chunks - {off}, rest);
      assert IterationOrder(chunks, rest + [off]);
    }
  }
}
