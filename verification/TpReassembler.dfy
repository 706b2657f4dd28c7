/** The Reassembler object (tp/tp.go), each method proved against the state machine of TpState.
    The mutex makes every method one atomic step; `now` and `reading` stand for time.Now(). */
module TpReassembler {
  import opened Bytes
  import opened Buffers
  import opened SomeIp
  import opened TpSegment
  import opened TpWindow
  import opened TpState

  /** Nanoseconds: 5 * time.Second. */
  const DEFAULT_TIMEOUT: int := 5_000_000_000

  datatype TpError = MalformedSegment | ReassemblyTimeout

  /** Add's (*Message, error) pair. */
  datatype AddResult = Nothing | Delivered(msg: Message) | Failed(error: TpError)

  ghost predicate Reports(r: AddResult, o: Outcome) {
    match o
    case Pending => r == Nothing
    case PassedThrough(m) => r == Delivered(m)
    case Completed(w) => r.Delivered? && Delivers(w, r.msg)
    case RejectedMalformed => r == Failed(MalformedSegment)
    case RejectedTimeout => r == Failed(ReassemblyTimeout)
  }

  class AssemblyWindow {
    const template: Message
    var segments: Chunks
    var totalSize: int
    var received: int
    const expires: int

    ghost function Value(): Window
      reads this
    {
      Window(template, segments, totalSize, received, expires)
    }

    constructor (template: Message, expires: int)
      ensures Value() == Opened(template, expires)
    {
      this.template, this.expires := template, expires;
      segments, totalSize, received := map[], -1, 0;
    }

    method Put(offset: int, more: bool, data: seq<byte>)
      modifies this
      ensures Value() == Store(old(Value()), offset, more, data)
    {
      if offset !in segments {
        segments := segments[offset := data];
        received := received + |data|;
      }
      if !more {
        totalSize := offset + |data|;
      }
    }

    /** The copy loop: the map is traversed in an arbitrary order. */
    method Assemble() returns (payload: seq<byte>)
      requires totalSize >= 0
      ensures exists order :: IterationOrder(segments, order) && payload == CopyAll(segments, order, totalSize)
    {
      var buf := new byte[totalSize](_ => 0);
      ghost var order: seq<int> := [];
      var todo := segments.Keys;
      assert buf[..] == Zeros(totalSize);
      while todo != {}
        invariant todo <= segments.Keys
        invariant forall off :: off in order <==> off in segments && off !in todo
        invariant forall i, j | 0 <= i < j < |order| :: order[i] != order[j]
        invariant buf[..] == CopyAll(segments, order, totalSize)
        decreases todo
      {
        HasElement(todo);
        var off :| off in todo;
        todo := todo - {off};
        var data := segments[off];
        CopyChunk(buf, off, data);
        assert (order + [off])[..|order|] == order;
        order := order + [off];
      }
      payload := buf[..];
      assert IterationOrder(segments, order);
    }
  }

  /** One turn of the copy loop. */
  method CopyChunk(buf: array<byte>, off: int, data: seq<byte>)
    modifies buf
    ensures buf[..] == CopyOne(old(buf[..]), off, data)
  {
    if off < 0 || off >= buf.Length {
      return;
    }
    var end := off + |data|;
    if end > buf.Length {
      end := buf.Length;
    }
    Copy(buf, off, data[..end - off]);
  }

  class Reassembler {
    const timeout: int
    const gcInterval: int
    var windows: map<Key, AssemblyWindow>
    var tombstones: map<Key, int>
    var done: bool

    ghost function View(): State
      reads this, windows.Values
    {
      State(map k | k in windows :: windows[k].Value(), tombstones)
    }

    /** No two keys share a window object. */
    ghost predicate Distinct()
      reads this
    {
      forall j, k | j in windows && k in windows && j != k :: windows[j] != windows[k]
    }

    ghost predicate Valid()
      reads this, windows.Values
    {
      Distinct() && Inv(View())
    }

    /** Five seconds and half the timeout are the defaults; time.NewTicker panics unless the period is
        positive. */
    constructor (timeout: int, gcInterval: int)
      requires gcInterval > 0 || (gcInterval == 0 && (timeout == 0 || timeout >= 2))
      ensures Valid() && windows == map[] && tombstones == map[] && !done
      ensures this.timeout == if timeout == 0 then 5_000_000_000 else timeout
      ensures if gcInterval != 0 then this.gcInterval == gcInterval
              else 0 < this.gcInterval && 0 <= this.timeout - 2 * this.gcInterval <= 1
    {
      var t := if timeout == 0 then DEFAULT_TIMEOUT else timeout;
      this.timeout := t;
      this.gcInterval := if gcInterval == 0 then t / 2 else gcInterval;
      windows, tombstones, done := map[], map[], false;
    }

    method Add(seg: Message, now: int) returns (r: AddResult)
      requires Valid()
      modifies this, windows.Values
      ensures Valid() && done == old(done)
      ensures fresh(windows.Values - old(windows.Values))
      ensures View() == AddStep(timeout, old(View()), seg, now).0
      ensures match AddStep(timeout, old(View()), seg, now).1
              case Pending => r == Nothing
              case PassedThrough(m) => r == Delivered(m)
              case Completed(w) => r.Delivered? && Delivers(w, r.msg)
              case RejectedMalformed => r == Failed(MalformedSegment)
              case RejectedTimeout => r == Failed(ReassemblyTimeout)
    {
      AddKeepsInv(timeout, View(), seg, now);
      if !IsTP(seg) {
        return Delivered(seg);
      }
      if |seg.payload| < TP_HEADER_SIZE {
        return Failed(MalformedSegment);
      }
      var tpWord: int := U32(seg.payload);
      var more := tpWord % 2 != 0;
      var byteOffset := tpWord / 16 * 16;
      var chunk := seg.payload[TP_HEADER_SIZE..];
      if byteOffset > MAX_REASSEMBLED_SIZE || byteOffset + |chunk| > MAX_REASSEMBLED_SIZE {
        return Failed(MalformedSegment);
      }

      r := AddChunk(seg, byteOffset, more, chunk, now);
    }

    /** The part of Add that runs under the lock. */
    method AddChunk(seg: Message, byteOffset: int, more: bool, chunk: seq<byte>, now: int) returns (r: AddResult)
      requires Distinct() && Parse(seg) == Chunk(byteOffset, more, chunk)
      modifies this, windows.Values
      ensures Distinct() && done == old(done)
      ensures fresh(windows.Values - old(windows.Values))
      ensures View() == AddStep(timeout, old(View()), seg, now).0
      ensures Reports(r, AddStep(timeout, old(View()), seg, now).1)
    {
      ghost var before := View();
      var win := Window(seg, now);
      if win == null {
        return Failed(ReassemblyTimeout);
      }
      AddThroughAdmit(timeout, before, seg, now, byteOffset, more, chunk);
      r := StoreChunk(win, byteOffset, more, chunk, KeyOf(seg));
    }

    /** The window that takes the segment; null when it has expired or a tombstone refuses it. */
    method Window(seg: Message, now: int) returns (win: AssemblyWindow?)
      requires Distinct()
      modifies this
      ensures Distinct() && done == old(done)
      ensures fresh(windows.Values - old(windows.Values))
      ensures match Admit(timeout, old(View()), seg, now)
              case Refused(expired) =>
                win == null &&
                View() == if expired
                          then State(old(View()).windows - {KeyOf(seg)},
                                     old(tombstones)[KeyOf(seg) := now + 2 * timeout])
                          else old(View())
              case Admitted(w) =>
                win != null && KeyOf(seg) in windows && windows[KeyOf(seg)] == win && win.Value() == w &&
                View() == old(View()).(windows := old(View()).windows[KeyOf(seg) := w])
    {
      var key := KeyOf(seg);
      if key !in windows {
        if key in tombstones && now < tombstones[key] {
          return null;
        }
        win := new AssemblyWindow(seg, now + timeout);
        windows := windows[key := win];
      } else {
        win := windows[key];
        if now > win.expires {
          tombstones := tombstones[key := now + 2 * timeout];
          windows := windows - {key};
          return null;
        }
      }
    }

    /** Stores the chunk and, when the counter reaches the total, takes the window out and delivers it. */
    method StoreChunk(win: AssemblyWindow, byteOffset: int, more: bool, chunk: seq<byte>, key: Key)
      returns (r: AddResult)
      requires Distinct() && key in windows && windows[key] == win
      modifies this, win
      ensures Distinct() && done == old(done) && windows.Values <= old(windows.Values)
      ensures var w := Store(old(win.Value()), byteOffset, more, chunk);
              if Complete(w)
              then Reports(r, Completed(w)) && View() == old(View()).(windows := old(View()).windows - {key})
              else r == Nothing && View() == old(View()).(windows := old(View()).windows[key := w])
    {
      hide Store;
      PutIn(win, byteOffset, more, chunk, key);
      if win.totalSize < 0 || win.received < win.totalSize {
        return Nothing;
      }
      r := Deliver(win, key);
    }

    method PutIn(win: AssemblyWindow, byteOffset: int, more: bool, chunk: seq<byte>, key: Key)
      requires Distinct() && key in windows && windows[key] == win
      modifies win
      ensures Distinct() && win.Value() == Store(old(win.Value()), byteOffset, more, chunk)
      ensures View() == old(View()).(windows := old(View()).windows[key := win.Value()])
    {
      hide Store;
      win.Put(byteOffset, more, chunk);
    }

    method Deliver(win: AssemblyWindow, key: Key) returns (r: AddResult)
      requires Distinct() && key in windows && windows[key] == win && win.totalSize >= 0
      modifies this`windows
      ensures Distinct() && windows.Values <= old(windows.Values)
      ensures Reports(r, Completed(win.Value()))
      ensures View() == old(View()).(windows := old(View()).windows - {key})
    {
      hide CopyAll, IterationOrder;
      var payload := win.Assemble();
      windows := windows - {key};
      var template := win.template;
      return Delivered(template.(messageType := BaseMessageType(template.messageType), payload := payload));
    }

    /** One tick of gcLoop: `reading` was taken before the lock. */
    method Sweep(reading: int)
      requires Valid()
      modifies this
      ensures Valid() && done == old(done) && windows.Values <= old(windows.Values)
      ensures View() == SweepStep(timeout, old(View()), reading)
    {
      SweepKeepsInv(timeout, View(), reading);
      SweepTables(reading);
    }

    method SweepTables(reading: int)
      requires Distinct()
      modifies this`windows, this`tombstones
      ensures Distinct() && windows.Values <= old(windows.Values)
      ensures View() == SweepStep(timeout, old(View()), reading)
    {
      EvictExpired(reading);
      DropTombstones(reading);
    }

    method EvictExpired(reading: int)
      modifies this`windows, this`tombstones
      ensures windows == old(windows) - ExpiredKeys(old(View()), reading)
      ensures tombstones == Marked(old(tombstones), ExpiredKeys(old(View()), reading), reading + 2 * timeout)
    {
      ghost var before, evicted: set<Key> := windows, {};
      ghost var expiry := reading + 2 * timeout;
      var todo := windows.Keys;
      while todo != {}
        invariant todo <= windows.Keys && windows == before - evicted
        invariant forall k | k in before :: k in evicted || k in todo || !(reading > before[k].expires)
        invariant forall k | k in evicted :: k in before && reading > before[k].expires
        invariant tombstones == Marked(old(tombstones), evicted, expiry)
        decreases todo
      {
        var key :| key in todo;
        todo := todo - {key};
        if reading > windows[key].expires {
          MarkedInsert(old(tombstones), evicted, key, expiry);
          tombstones := tombstones[key := reading + 2 * timeout];
          windows := windows - {key};
          evicted := evicted + {key};
        }
      }
      assert evicted == ExpiredKeys(old(View()), reading);
    }

    method DropTombstones(reading: int)
      modifies this`tombstones
      ensures tombstones == Unexpired(old(tombstones), reading)
    {
      ghost var before := tombstones;
      var todo := tombstones.Keys;
      while todo != {}
        invariant todo <= tombstones.Keys <= before.Keys
        invariant forall k | k in before :: k in tombstones <==> k in todo || !(reading > before[k])
        invariant forall k | k in tombstones :: tombstones[k] == before[k]
        decreases todo
      {
        var key :| key in todo;
        if reading > tombstones[key] {
          tombstones := tombstones - {key};
        }
        todo := todo - {key};
      }
    }

    /** close(r.done) panics on a second call, before the tables are touched. */
    method Close() returns (panicked: bool)
      requires Valid()
      modifies this
      ensures Valid() && done && panicked == old(done)
      ensures View() == if panicked then old(View()) else EMPTY
    {
      if done {
        return true;
      }
      done := true;
      windows := map[];
      tombstones := map[];
      return false;
    }
  }
}
