/** The reassembler's windows in terms of the messages that have arrived: what a window holds, when it is
    complete and what each Add reports, without reference to how one step changes the state. */
module TpHistory {
  import opened Bytes
  import opened SomeIp
  import opened TpSegment
  import opened TpWindow
  import opened TpState
  import opened TpRuns

  // ---------------------------------------------------------------- one Add

  /** What Add reports, in the order of its checks. A segment is refused by an expired window or by a
      tombstone; otherwise it completes the message exactly if the end is then known and the bytes counted
      reach it. */
  lemma AddReports(timeout: int, s: State, seg: Message, now: int)
    ensures var tp, p := seg.messageType / 32 % 2 == 1, seg.payload;
      var k := Key(seg.serviceID, seg.methodID, seg.sessionID);
      var (s', o) := AddStep(timeout, s, seg, now);
      if !tp then o == PassedThrough(seg) && s' == s
      else if |p| < 4 || Word(p) / 16 * 16 + (|p| - 4) > 67108864 then o == RejectedMalformed && s' == s
      else if k in s.windows && now > s.windows[k].expires then
        o == RejectedTimeout && k !in s'.windows && k in s'.tombstones && s'.tombstones[k] == now + 2 * timeout
      else if k !in s.windows && k in s.tombstones && now < s.tombstones[k] then o == RejectedTimeout && s' == s
      else
        var known := if k in s.windows then s.windows[k].totalSize else -1;
        var counted := if k in s.windows then s.windows[k].received else 0;
        var new_ := k !in s.windows || Word(p) / 16 * 16 !in s.windows[k].segments;
        var end := if Word(p) % 2 == 0 then Word(p) / 16 * 16 + (|p| - 4) else known;
        var sum := if new_ then counted + (|p| - 4) else counted;
        && (o.Completed? <==> 0 <= end <= sum) && (o.Completed? || o == Pending)
        && (k in s'.windows <==> o == Pending) && s'.tombstones == s.tombstones
  {
    hide Word;
    ParseInNumbers(seg);
    assert Parse(seg).Chunk? || Parse(seg).NotTP? || Parse(seg).Malformed?;
  }

  // ---------------------------------------------------------------- one GC tick

  /** A tick evicts exactly the expired windows, marks them for twice the timeout, and leaves exactly the
      tombstones that have not passed. */
  lemma SweepIff(timeout: int, s: State, reading: int, k: Key)
    ensures var s' := SweepStep(timeout, s, reading);
      var evicted := k in s.windows && reading > s.windows[k].expires;
      var expiry := if evicted then reading + 2 * timeout else if k in s.tombstones then s.tombstones[k] else 0;
      && (k in s'.windows <==> k in s.windows && !evicted) && (k in s'.windows ==> s'.windows[k] == s.windows[k])
      && (k in s'.tombstones <==> (evicted || k in s.tombstones) && reading <= expiry)
      && (k in s'.tombstones ==> s'.tombstones[k] == expiry)
  {
  }

  // ---------------------------------------------------------------- windows and the past

  /** What one segment brings. */
  datatype Piece = Piece(offset: int, data: seq<byte>, final: bool)

  function PieceOf(payload: seq<byte>): Piece
    requires |payload| >= 4
  {
    Piece(Word(payload) / 16 * 16, payload[4..], Word(payload) % 2 == 0)
  }

  /** Event e adds a well-formed segment with the identifiers of k. */
  predicate Feeds(e: Event, k: Key) {
    e.Arrive? && Key(e.seg.serviceID, e.seg.methodID, e.seg.sessionID) == k &&
    |e.seg.payload| >= 4 && Parse(e.seg).Chunk?
  }

  lemma FeedIs(e: Event, k: Key)
    requires Feeds(e, k)
    ensures KeyOf(e.seg) == k
    ensures var p := PieceOf(e.seg.payload); Parse(e.seg) == Chunk(p.offset, !p.final, p.data)
  {
    ParseInNumbers(e.seg);
  }

  /** What the segments of k bring from event i on. */
  function PiecesSince(es: seq<Event>, k: Key, i: nat): seq<Piece> {
    if |es| <= i then []
    else
      var rest, e := es[..|es| - 1], es[|es| - 1];
      PiecesSince(rest, k, i) + if Feeds(e, k) then [PieceOf(e.seg.payload)] else []
  }

  /** Piece j is the first one at its offset. */
  predicate FirstAt(ps: seq<Piece>, j: int) {
    0 <= j < |ps| && forall x | 0 <= x < j :: ps[x].offset != ps[j].offset
  }

  /** Piece j is the latest final one. */
  predicate LatestFinal(ps: seq<Piece>, j: int) {
    0 <= j < |ps| && ps[j].final && forall x | j < x < |ps| :: !ps[x].final
  }

  /** At each offset w holds the first piece that came for it. */
  ghost predicate HoldsFirst(w: Window, ps: seq<Piece>) {
    && (forall o | o in w.segments :: exists j :: FirstAt(ps, j) && ps[j].offset == o)
    && (forall j | 0 <= j < |ps| :: ps[j].offset in w.segments)
    && (forall j | FirstAt(ps, j) :: w.segments[ps[j].offset] == ps[j].data)
  }

  /** w ends where the latest final piece does. */
  ghost predicate EndsLatest(w: Window, ps: seq<Piece>) {
    && (forall j | LatestFinal(ps, j) :: w.totalSize == ps[j].offset + |ps[j].data|)
    && (w.totalSize != -1 ==> exists j :: LatestFinal(ps, j))
  }

  function Fed(w: Window, p: Piece): Window {
    Store(w, p.offset, !p.final, p.data)
  }

  lemma PrefixPieces(ps: seq<Piece>, p: Piece, j: int)
    ensures j < |ps| ==> (FirstAt(ps + [p], j) <==> FirstAt(ps, j))
    ensures !p.final ==> (LatestFinal(ps + [p], j) <==> LatestFinal(ps, j))
  {
    var qs := ps + [p];
    assert ps == qs[..|ps|];
    assert forall x | 0 <= x < |ps| :: qs[x] == ps[x];
    if LatestFinal(qs, j) && j < |ps| {
      forall x | j < x < |ps| ensures !ps[x].final {
        assert !qs[x].final;
      }
    }
    if FirstAt(qs, j) && j < |ps| {
      forall x | 0 <= x < j ensures ps[x].offset != ps[j].offset {
        assert qs[x].offset != qs[j].offset;
      }
    }
  }

  lemma FeedFirst(w: Window, ps: seq<Piece>, p: Piece)
    requires HoldsFirst(w, ps)
    ensures HoldsFirst(Fed(w, p), ps + [p])
  {
    var qs, w', n := ps + [p], Fed(w, p), |ps|;
    forall j | j < n ensures FirstAt(qs, j) <==> FirstAt(ps, j) {
      PrefixPieces(ps, p, j);
    }
    if p.offset in w.segments {
      var j :| FirstAt(ps, j) && ps[j].offset == p.offset;
      assert qs[j].offset == qs[n].offset && !FirstAt(qs, n);
    } else {
      assert FirstAt(qs, n);
    }
    forall o | o in w'.segments ensures exists j :: FirstAt(qs, j) && qs[j].offset == o {
      if o in w.segments {
        var j :| FirstAt(ps, j) && ps[j].offset == o;
        assert FirstAt(qs, j) && qs[j].offset == o;
      } else {
        assert FirstAt(qs, n) && qs[n].offset == o;
      }
    }
  }

  lemma FeedLatest(w: Window, ps: seq<Piece>, p: Piece)
    requires EndsLatest(w, ps)
    ensures EndsLatest(Fed(w, p), ps + [p])
  {
    var qs, n := ps + [p], |ps|;
    if p.final {
      assert LatestFinal(qs, n);
      forall j | LatestFinal(qs, j) ensures j == n {
        assert qs[n].final;
      }
    } else {
      forall j ensures LatestFinal(qs, j) <==> LatestFinal(ps, j) {
        PrefixPieces(ps, p, j);
      }
    }
  }

  /** The window opened by event i, and fed with everything that came for k since. */
  ghost predicate OpenedAt(timeout: int, w: Window, es: seq<Event>, k: Key, i: nat) {
    && i < |es| && Feeds(es[i], k)
    && w.template == es[i].seg && w.expires == es[i].now + timeout
    && HoldsFirst(w, PiecesSince(es, k, i)) && EndsLatest(w, PiecesSince(es, k, i))
  }

  lemma OpenNow(timeout: int, es: seq<Event>, k: Key)
    requires es != [] && Feeds(es[|es| - 1], k)
    ensures var e := es[|es| - 1];
      OpenedAt(timeout, Fed(Opened(e.seg, e.now + timeout), PieceOf(e.seg.payload)), es, k, |es| - 1)
  {
    hide HoldsFirst, EndsLatest;
    var n, e := |es| - 1, es[|es| - 1];
    var p := PieceOf(e.seg.payload);
    assert PiecesSince(es[..n], k, n) == [] && [] + [p] == [p] == PiecesSince(es, k, n);
    EmptyWindow(e.seg, e.now + timeout);
    FeedFirst(Opened(e.seg, e.now + timeout), [], p);
    FeedLatest(Opened(e.seg, e.now + timeout), [], p);
  }

  lemma EmptyWindow(seg: Message, expires: int)
    ensures HoldsFirst(Opened(seg, expires), []) && EndsLatest(Opened(seg, expires), [])
  {
  }

  lemma StayOpen(timeout: int, w: Window, es: seq<Event>, k: Key, i: nat)
    requires es != [] && OpenedAt(timeout, w, es[..|es| - 1], k, i)
    ensures var e := es[|es| - 1];
      OpenedAt(timeout, if Feeds(e, k) then Fed(w, PieceOf(e.seg.payload)) else w, es, k, i)
  {
    hide HoldsFirst, EndsLatest, Feeds, Fed;
    var rest, e := es[..|es| - 1], es[|es| - 1];
    var ps := PiecesSince(rest, k, i);
    if Feeds(e, k) {
      PayloadLong(e, k);
      FeedFirst(w, ps, PieceOf(e.seg.payload));
      FeedLatest(w, ps, PieceOf(e.seg.payload));
      FedHeader(w, PieceOf(e.seg.payload));
    } else {
      assert ps + [] == ps;
    }
  }

  lemma PayloadLong(e: Event, k: Key)
    requires Feeds(e, k)
    ensures e.Arrive? && |e.seg.payload| >= 4
  {
  }

  lemma FedHeader(w: Window, p: Piece)
    ensures Fed(w, p).template == w.template && Fed(w, p).expires == w.expires
  {
  }

  /** On every run, each window in the table is one that some segment opened and all later ones with its
      identifiers fed: it has the header and the expiry of the first one, at each offset the first piece that
      came for it, and the end that the latest final piece gave. */
  lemma {:induction false} WindowHistory(timeout: int, es: seq<Event>, k: Key) returns (i: nat)
    requires k in After(timeout, EMPTY, es).windows
    ensures OpenedAt(timeout, After(timeout, EMPTY, es).windows[k], es, k, i)
    decreases |es|
  {
    hide OpenedAt;
    var n := |es| - 1;
    var rest, e := es[..n], es[n];
    var s := After(timeout, EMPTY, rest);
    StepWindow(timeout, s, e, k);
    if Feeds(e, k) && k !in s.windows {
      i := n;
      OpenNow(timeout, es, k);
    } else {
      i := WindowHistory(timeout, rest, k);
      StayOpen(timeout, s.windows[k], es, k, i);
    }
  }

  lemma StepWindow(timeout: int, s: State, e: Event, k: Key)
    ensures var s' := StepState(timeout, s, e);
      k in s'.windows ==>
        if Feeds(e, k) then
          s'.windows[k] == Fed(if k in s.windows then s.windows[k] else Opened(e.seg, e.now + timeout),
                               PieceOf(e.seg.payload))
        else k in s.windows && s'.windows[k] == s.windows[k]
  {
    hide Store, Complete, Word;
    if Feeds(e, k) {
      FeedIs(e, k);
    } else if e.Arrive? {
      ParseInNumbers(e.seg);
    }
  }

  /** A message is put together exactly when the first pieces at all offsets add up to the end that the
      latest final one gave; until then the window is short of its end, or has not been told it. */
  lemma CompletedHistory(timeout: int, es: seq<Event>, n: nat, k: Key) returns (i: nat)
    requires n < |es| && Feeds(es[n], k) && OutcomeAt(timeout, EMPTY, es, n).Completed?
    ensures var w := OutcomeAt(timeout, EMPTY, es, n).window;
      OpenedAt(timeout, w, es[..n + 1], k, i) && 0 <= w.totalSize <= SumLengths(w.segments)
  {
    hide OpenedAt, Store;
    var e, s, now := es[n], After(timeout, EMPTY, es[..n]), es[..n + 1];
    FeedIs(e, k);
    assert now[..n] == es[..n];
    InvAlways(timeout, EMPTY, es[..n]);
    AddKeepsInv(timeout, s, e.seg, e.now);
    hide Good, Inv;
    if k in s.windows {
      i := WindowHistory(timeout, es[..n], k);
      StayOpen(timeout, s.windows[k], now, k, i);
    } else {
      i := n;
      OpenNow(timeout, now, k);
    }
  }

  lemma PendingHistory(timeout: int, es: seq<Event>, k: Key)
    requires k in After(timeout, EMPTY, es).windows
    ensures var w := After(timeout, EMPTY, es).windows[k];
      w.totalSize == -1 || SumLengths(w.segments) < w.totalSize
  {
    InvAlways(timeout, EMPTY, es);
  }
}
