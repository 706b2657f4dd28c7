/** One assembly window of the SOME/IP-TP reassembler: the byte counter, the completeness test
    and the copy loop that builds the payload (tp/tp.go). */
module TpWindow {
  import opened Bytes
  import opened Buffers
  import opened SomeIp
  import opened TpSegment

  /** Byte offset to stored chunk. */
  type Chunks = map<int, seq<byte>>

  /** The value of an assemblyWindow. */
  datatype Window = Window(template: Message, segments: Chunks, totalSize: int, received: int, expires: int)

  function Opened(template: Message, expires: int): Window {
    Window(template, map[], -1, 0, expires)
  }

  /** Add's bookkeeping for one chunk: a known offset is ignored, a final chunk fixes the total. */
  function Store(w: Window, offset: int, more: bool, data: seq<byte>): Window {
    var w1 := if offset in w.segments then w
              else w.(segments := w.segments[offset := data], received := w.received + |data|);
    if more then w1 else w1.(totalSize := offset + |data|)
  }

  predicate Complete(w: Window) {
    w.totalSize >= 0 && w.received >= w.totalSize
  }

  lemma HasElement(s: set<int>)
    requires s != {}
    ensures exists x :: x in s
  {
    if forall x :: x !in s {
      assert false;
    }
  }

  // ---------------------------------------------------------------- the byte counter

  ghost function SumLengths(chunks: Chunks): (total: nat)
    decreases |chunks|
  {
    if chunks.Keys == {} then 0
    else
      HasElement(chunks.Keys);
      var off :| off in chunks.Keys;
      |chunks[off]| + SumLengths(chunks - {off})
  }

  /** The sum does not depend on the order in which chunks are taken. */
  lemma {:induction false} SumSplit(chunks: Chunks, off: int)
    requires off in chunks
    ensures SumLengths(chunks) == |chunks[off]| + SumLengths(chunks - {off})
    decreases |chunks|
  {
    HasElement(chunks.Keys);
    var first :| first in chunks.Keys && SumLengths(chunks) == |chunks[first]| + SumLengths(chunks - {first});
    if first != off {
      SumSplit(chunks - {first}, off);
      SumSplit(chunks - {off}, first);
      assert chunks - {first} - {off} == chunks - {off} - {first};
    }
  }

  lemma SumInsert(chunks: Chunks, off: int, data: seq<byte>)
    requires off !in chunks
    ensures SumLengths(chunks[off := data]) == SumLengths(chunks) + |data|
  {
    SumSplit(chunks[off := data], off);
    assert chunks[off := data] - {off} == chunks;
  }

  // ---------------------------------------------------------------- coverage

  ghost predicate CoveredBy(chunks: Chunks, off: int, p: int) {
    off in chunks && off <= p < off + |chunks[off]|
  }

  ghost predicate Covered(chunks: Chunks, p: int) {
    exists off :: CoveredBy(chunks, off, p)
  }

  ghost predicate Disjoint(chunks: Chunks) {
    forall a, b, p :: CoveredBy(chunks, a, p) && CoveredBy(chunks, b, p) ==> a == b
  }

  ghost predicate Inside(chunks: Chunks, total: int) {
    forall off | off in chunks :: 0 <= off && off + |chunks[off]| <= total
  }

  ghost function Range(lo: int, hi: int): (s: set<int>)
    requires lo <= hi
    ensures forall p :: p in s <==> lo <= p < hi
    ensures |s| == hi - lo
    decreases hi - lo
  {
    if lo == hi then {} else Range(lo, hi - 1) + {hi - 1}
  }

  /** The positions that some chunk covers, for chunks inside [0, total). */
  ghost function Positions(chunks: Chunks, total: nat): set<int> {
    set p | 0 <= p < total && Covered(chunks, p)
  }

  /** For disjoint chunks the lengths add up to the number of covered positions. */
  lemma {:induction false} SumIsPositions(chunks: Chunks, total: nat)
    requires Disjoint(chunks) && Inside(chunks, total)
    ensures |Positions(chunks, total)| == SumLengths(chunks)
    decreases |chunks|
  {
    if chunks.Keys == {} {
      assert Positions(chunks, total) == {};
    } else {
      HasElement(chunks.Keys);
      var off :| off in chunks.Keys && SumLengths(chunks) == |chunks[off]| + SumLengths(chunks - {off});
      var rest := chunks - {off};
      var own := Range(off, off + |chunks[off]|);
      assert forall a, p :: CoveredBy(rest, a, p) ==> CoveredBy(chunks, a, p);
      SumIsPositions(rest, total);
      RemoveChunk(chunks, off, total);
      assert |own + Positions(rest, total)| == |own| + |Positions(rest, total)|;
    }
  }

  lemma RemoveChunk(chunks: Chunks, off: int, total: nat)
    requires Disjoint(chunks) && Inside(chunks, total) && off in chunks
    ensures Range(off, off + |chunks[off]|) !! Positions(chunks - {off}, total)
    ensures Positions(chunks, total) == Range(off, off + |chunks[off]|) + Positions(chunks - {off}, total)
  {
    var rest, own := chunks - {off}, Range(off, off + |chunks[off]|);
    forall p: int
      ensures p in Positions(chunks, total) <==> p in own || p in Positions(rest, total)
      ensures p !in own || p !in Positions(rest, total)
    {
      RemoveChunkAt(chunks, off, p);
      if p in own {
        assert CoveredBy(chunks, off, p);
      }
    }
  }

  lemma RemoveChunkAt(chunks: Chunks, off: int, p: int)
    requires Disjoint(chunks) && off in chunks
    ensures Covered(chunks, p) <==> CoveredBy(chunks, off, p) || Covered(chunks - {off}, p)
    ensures !(CoveredBy(chunks, off, p) && Covered(chunks - {off}, p))
  {
    var rest := chunks - {off};
    if Covered(rest, p) {
      var a :| CoveredBy(rest, a, p);
      assert CoveredBy(chunks, a, p);
    }
    if Covered(chunks, p) {
      var a :| CoveredBy(chunks, a, p);
      assert a != off ==> CoveredBy(rest, a, p);
    }
  }

  /** The completeness test of Add is a counter, not a coverage check; on disjoint chunks inside the
      message the two agree. */
  lemma CounterIsExact(chunks: Chunks, total: nat)
    requires Disjoint(chunks) && Inside(chunks, total)
    ensures SumLengths(chunks) >= total <==> forall p | 0 <= p < total :: Covered(chunks, p)
  {
    SumIsPositions(chunks, total);
    FullIffCovered(chunks, total);
  }

  lemma FullIffCovered(chunks: Chunks, total: nat)
    ensures |Positions(chunks, total)| >= total <==> forall p | 0 <= p < total :: Covered(chunks, p)
  {
    var covered, all := Positions(chunks, total), Range(0, total);
    if |covered| >= total {
      forall p | 0 <= p < total ensures Covered(chunks, p) {
        SubsetOfSameSize(covered, all, p);
      }
    }
    if forall p | 0 <= p < total :: Covered(chunks, p) {
      SubsetNotLarger(all, covered);
    }
  }

  lemma SubsetOfSameSize(a: set<int>, b: set<int>, x: int)
    requires a <= b && |a| >= |b| && x in b
    ensures x in a
  {
    if x !in a {
      SubsetNotLarger(a, b - {x});
    }
  }

  lemma {:induction false} SubsetNotLarger(a: set<int>, b: set<int>)
    requires a <= b
    ensures |a| <= |b|
    decreases b
  {
    if a != {} {
      HasElement(a);
      var x :| x in a;
      SubsetNotLarger(a - {x}, b - {x});
    }
  }

  // ---------------------------------------------------------------- the copy loop

  /** One turn of the copy loop: the chunk is clamped to the payload, or skipped when it starts outside. */
  function CopyOne(payload: seq<byte>, off: int, data: seq<byte>): (r: seq<byte>)
    ensures |r| == |payload|
  {
    if off < 0 || off >= |payload| then payload
    else
      var end := Min(off + |data|, |payload|);
      payload[..off] + data[..end - off] + payload[end..]
  }

  /** The copy loop over the chunks in the order the map iteration yields them. */
  function CopyAll(chunks: Chunks, order: seq<int>, total: nat): (payload: seq<byte>)
    requires forall off | off in order :: off in chunks
    ensures |payload| == total
  {
    if order == [] then Zeros(total)
    else
      var last := order[|order| - 1];
      CopyOne(CopyAll(chunks, order[..|order| - 1], total), last, chunks[last])
  }

  /** order lists every key of the map once: one possible iteration of `range segments`. */
  ghost predicate IterationOrder(chunks: Chunks, order: seq<int>) {
    && (forall off :: off in order <==> off in chunks)
    && (forall i, j | 0 <= i < j < |order| :: order[i] != order[j])
  }

  /** What a reader of the result can rely on for arbitrary chunks: an uncovered byte is zero and a
      covered byte comes from one of the chunks that cover it. */
  ghost predicate ByteFromChunks(chunks: Chunks, order: seq<int>, p: int, value: byte) {
    if exists off :: off in order && CoveredBy(chunks, off, p)
    then exists off :: off in order && CoveredBy(chunks, off, p) && value == chunks[off][p - off]
    else value == 0
  }

  lemma {:induction false} CopyAllAt(chunks: Chunks, order: seq<int>, total: nat, p: int)
    requires forall off | off in order :: off in chunks && 0 <= off
    requires 0 <= p < total
    ensures ByteFromChunks(chunks, order, p, CopyAll(chunks, order, total)[p])
    decreases |order|
  {
    if order != [] {
      var last, rest := order[|order| - 1], order[..|order| - 1];
      assert order == rest + [last];
      assert forall off :: off in order <==> off in rest || off == last;
      CopyAllAt(chunks, rest, total, p);
      var payload := CopyAll(chunks, order, total);
      var before := CopyAll(chunks, rest, total);
      if CoveredBy(chunks, last, p) {
        assert payload[p] == chunks[last][p - last];
      } else {
        assert payload[p] == before[p];
      }
    }
  }

  /** Disjoint chunks give the same payload whatever order the map iteration takes. */
  lemma OrderDoesNotMatter(chunks: Chunks, order1: seq<int>, order2: seq<int>, total: nat)
    requires Disjoint(chunks) && (forall off | off in chunks :: 0 <= off)
    requires IterationOrder(chunks, order1) && IterationOrder(chunks, order2)
    ensures CopyAll(chunks, order1, total) == CopyAll(chunks, order2, total)
  {
    var a, b := CopyAll(chunks, order1, total), CopyAll(chunks, order2, total);
    forall p | 0 <= p < total ensures a[p] == b[p] {
      CopyAllAt(chunks, order1, total, p);
      CopyAllAt(chunks, order2, total, p);
    }
  }

  /** A complete window of disjoint chunks has no zero-filled gap: every byte is the byte of its chunk. */
  lemma NoGap(chunks: Chunks, order: seq<int>, total: nat, p: int)
    requires Disjoint(chunks) && Inside(chunks, total) && IterationOrder(chunks, order)
    requires SumLengths(chunks) >= total
    requires 0 <= p < total
    ensures exists off :: CoveredBy(chunks, off, p) && CopyAll(chunks, order, total)[p] == chunks[off][p - off]
  {
    CounterIsExact(chunks, total);
    CopyAllAt(chunks, order, total, p);
    assert Covered(chunks, p);
    var off :| CoveredBy(chunks, off, p);
    assert off in order && CoveredBy(chunks, off, p);
  }
}
