/** SOME/IP-SD payloads: flags, entries array, options array (sd/udp/sdudp.go). */
module SdPayload {
  import opened Bytes
  import opened SomeIp
  import opened Results
  import opened SdFormat
  import Codec

  const FLAGS_SIZE: int := 4
  const LENGTH_SIZE: int := 4

  datatype SdMessage = SdMessage(flags: byte, entries: seq<Entry>, options: seq<Opt>)

  datatype PayloadError = MalformedMessage | BadOption(error: SdError)

  // ---------------------------------------------------------------- decoding

  /** Entries up to the first block that is cut short or of an unknown type. */
  function ParseEntries(area: seq<byte>): seq<Entry>
    decreases |area|
  {
    if |area| < ENTRY_SIZE || DecodeEntry(area).Failure? then []
    else [DecodeEntry(area).value] + ParseEntries(area[ENTRY_SIZE..])
  }

  function ParsePayload(p: seq<byte>): Result<SdMessage, PayloadError> {
    if |p| < FLAGS_SIZE + LENGTH_SIZE then Failure(MalformedMessage)
    else
      var entriesEnd := 8 + U32(p[4..]);
      if entriesEnd > |p| || entriesEnd + LENGTH_SIZE > |p| then Failure(MalformedMessage)
      else
        var options := p[entriesEnd + LENGTH_SIZE..];
        var optionsLen := U32(p[entriesEnd..]);
        if optionsLen > |options| then Failure(MalformedMessage)
        else
          match ParseOptions(options[..optionsLen])
          case Failure(error) => Failure(BadOption(error))
          case Success(opts) => Success(SdMessage(p[0], ParseEntries(p[8..entriesEnd]), opts))
  }

  method DecodeSdPayload(p: seq<byte>) returns (r: Result<SdMessage, PayloadError>)
    ensures r == ParsePayload(p)
  {
    hide U32, DecodeEntry, ParseOptions;
    if |p| < FLAGS_SIZE + LENGTH_SIZE {
      return Failure(MalformedMessage);
    }
    var flags := p[0];
    var offset := FLAGS_SIZE;
    var entriesLen: int := U32(p[offset..]);
    offset := offset + LENGTH_SIZE;
    if offset + entriesLen > |p| {
      return Failure(MalformedMessage);
    }
    var entries: seq<Entry> := [];
    var entriesEnd := offset + entriesLen;
    ghost var all := ParseEntries(p[8..entriesEnd]);
    while offset < entriesEnd
      invariant 8 <= offset <= entriesEnd
      invariant entries + ParseEntries(p[offset..entriesEnd]) == all
    {
      ghost var area := p[offset..entriesEnd];
      if offset + ENTRY_SIZE > entriesEnd {
        assert entries + [] == entries;
        break;
      }
      SameEntry(p[offset..], |area|);
      assert p[offset..][..|area|] == area;
      var e := DecodeEntry(p[offset..]);
      if e.Failure? {
        assert entries + [] == entries;
        break;
      }
      assert area[ENTRY_SIZE..] == p[offset + ENTRY_SIZE..entriesEnd];
      ghost var others := ParseEntries(area[ENTRY_SIZE..]);
      assert entries + ([e.value] + others) == entries + [e.value] + others;
      entries := entries + [e.value];
      offset := offset + ENTRY_SIZE;
    }
    assert entries == all;
    offset := entriesEnd;
    if offset + LENGTH_SIZE > |p| {
      return Failure(MalformedMessage);
    }
    var optionsLen: int := U32(p[offset..]);
    offset := offset + LENGTH_SIZE;
    if optionsLen < 0 || offset + optionsLen > |p| {
      return Failure(MalformedMessage);
    }
    assert p[offset..][..optionsLen] == p[offset..offset + optionsLen];
    var options := DecodeOptions(p[offset..offset + optionsLen]);
    match options
    case Failure(error) => return Failure(BadOption(error));
    case Success(opts) => return Success(SdMessage(flags, entries, opts));
  }

  /** Only the first sixteen bytes of a slice decide what entry it holds. */
  lemma SameEntry(b: seq<byte>, n: nat)
    requires ENTRY_SIZE <= n <= |b|
    ensures DecodeEntry(b[..n]) == DecodeEntry(b)
  {
    hide U16, U32;
    var c := b[..n];
    SamePrefix(b[4..], n - 4);
    SamePrefix(b[6..], n - 6);
    SamePrefix(b[14..], n - 14);
    SamePrefix32(b[12..], n - 12);
    assert c[4..] == b[4..][..n - 4] && c[6..] == b[6..][..n - 6];
    assert c[12..] == b[12..][..n - 12] && c[14..] == b[14..][..n - 14];
  }

  lemma SamePrefix32(b: seq<byte>, n: nat)
    requires 4 <= n <= |b|
    ensures U32(b[..n]) == U32(b)
  {
    assert b[..n][2..] == b[2..n];
  }

  // ---------------------------------------------------------------- what a payload means

  function BlockAt(area: seq<byte>, i: nat): (b: seq<byte>)
    requires ENTRY_SIZE * (i + 1) <= |area|
    ensures |b| == ENTRY_SIZE
  {
    area[ENTRY_SIZE * i..ENTRY_SIZE * (i + 1)]
  }

  /** es decodes the longest run of whole blocks of known types at the head of the area. */
  ghost predicate KnownPrefix(area: seq<byte>, es: seq<Entry>) {
    ENTRY_SIZE * |es| <= |area| &&
    (forall i | 0 <= i < |es| :: DecodeEntry(BlockAt(area, i)) == Success(es[i])) &&
    (ENTRY_SIZE * (|es| + 1) <= |area| ==> DecodeEntry(BlockAt(area, |es|)).Failure?)
  }

  lemma {:induction false} ParseEntriesIff(area: seq<byte>, es: seq<Entry>)
    ensures ParseEntries(area) == es <==> KnownPrefix(area, es)
    decreases |area|
  {
    hide DecodeEntry;
    if |area| >= ENTRY_SIZE {
      SameEntry(area, ENTRY_SIZE);
      assert BlockAt(area, 0) == area[..ENTRY_SIZE];
    }
    if |area| >= ENTRY_SIZE && DecodeEntry(area).Success? {
      var e, rest := DecodeEntry(area).value, area[ENTRY_SIZE..];
      ParseEntriesIff(rest, ParseEntries(rest));
      if es != [] && es[0] == e {
        ParseEntriesIff(rest, es[1..]);
        ShiftPrefix(area, es);
      }
      if es == [] || es[0] != e {
        assert !KnownPrefix(area, es);
      }
    }
  }

  lemma ShiftPrefix(area: seq<byte>, es: seq<Entry>)
    requires |area| >= ENTRY_SIZE && es != [] && DecodeEntry(BlockAt(area, 0)) == Success(es[0])
    ensures KnownPrefix(area, es) <==> KnownPrefix(area[ENTRY_SIZE..], es[1..])
  {
    hide DecodeEntry;
    var rest := area[ENTRY_SIZE..];
    forall i: nat | ENTRY_SIZE * (i + 1) <= |rest| ensures BlockAt(rest, i) == BlockAt(area, i + 1) {
    }
    if KnownPrefix(rest, es[1..]) {
      forall i | 0 <= i < |es| ensures DecodeEntry(BlockAt(area, i)) == Success(es[i]) {
        if i > 0 {
          assert BlockAt(rest, i - 1) == BlockAt(area, i) && es[1..][i - 1] == es[i];
        }
      }
    }
    if KnownPrefix(area, es) {
      forall i | 0 <= i < |es| - 1 ensures DecodeEntry(BlockAt(rest, i)) == Success(es[1..][i]) {
        assert BlockAt(rest, i) == BlockAt(area, i + 1);
      }
    }
  }

  /** Both length fields stay inside the payload. */
  predicate LengthsFit(p: seq<byte>) {
    |p| >= 12 && 12 + U32(p[4..]) <= |p| && 12 + U32(p[4..]) + U32(p[8 + U32(p[4..])..]) <= |p|
  }

  function EntriesArea(p: seq<byte>): seq<byte>
    requires LengthsFit(p)
  {
    p[8..8 + U32(p[4..])]
  }

  function OptionsArea(p: seq<byte>): seq<byte>
    requires LengthsFit(p)
  {
    var start := 12 + U32(p[4..]);
    p[start..start + U32(p[start - 4..])]
  }

  /** A payload decodes exactly when its lengths fit and its options array divides into options. The
      entries are the longest known prefix; the options stand behind the declared entries length, however
      many entries were dropped. */
  lemma ParsePayloadIff(p: seq<byte>, m: SdMessage)
    ensures ParsePayload(p) == Success(m) <==>
      LengthsFit(p) && m.flags == p[0] && KnownPrefix(EntriesArea(p), m.entries) && Divides(m.options, OptionsArea(p))
  {
    hide U32, DecodeEntry, KnownPrefix, Divides, ParseOptions, ParseEntries;
    if LengthsFit(p) {
      var start := 12 + U32(p[4..]);
      assert p[start..][..U32(p[start - 4..])] == OptionsArea(p);
      ParseEntriesIff(EntriesArea(p), m.entries);
      ParseOptionsIff(OptionsArea(p), m.options);
    }
  }

  /** Which error a payload is rejected with: a length that does not fit, or an options array that is no
      concatenation of options. */
  lemma PayloadErrors(p: seq<byte>)
    ensures ParsePayload(p) == Failure(MalformedMessage) <==> !LengthsFit(p)
    ensures ParsePayload(p) == Failure(BadOption(ShortOption)) <==>
      LengthsFit(p) && forall opts :: !Divides(opts, OptionsArea(p))
  {
    hide U32, Divides;
    if LengthsFit(p) {
      var start := 12 + U32(p[4..]);
      assert p[start..][..U32(p[start - 4..])] == OptionsArea(p);
      OnlyShort(OptionsArea(p));
      forall opts ensures ParseOptions(OptionsArea(p)) == Success(opts) <==> Divides(opts, OptionsArea(p)) {
        ParseOptionsIff(OptionsArea(p), opts);
      }
      if ParseOptions(OptionsArea(p)).Success? {
        assert Divides(ParseOptions(OptionsArea(p)).value, OptionsArea(p));
      }
    }
  }

  lemma {:induction false} OnlyShort(b: seq<byte>)
    ensures ParseOptions(b).Failure? ==> ParseOptions(b).error == ShortOption
    decreases |b|
  {
    if |b| >= 3 && 4 <= 3 + U16(b) <= |b| {
      OnlyShort(b[3 + U16(b)..]);
    }
  }

  // ---------------------------------------------------------------- encoding

  /** The entry as sent: with an option, its first run is that option. */
  function Linked(entry: Entry, opt: Option<Endpoint>): Entry {
    if opt.Some? then entry.(index1 := 0, numOpts1 := 1) else entry
  }

  function OptionArray(opt: Option<Endpoint>, optType: byte): (b: seq<byte>)
    ensures |b| <= 12
  {
    if opt.Some? then OptionBytes(optType, opt.value) else []
  }

  function Payload(flags: byte, entry: Entry, opt: Option<Endpoint>, optType: byte): (p: seq<byte>)
    ensures |p| <= 40
  {
    var options := OptionArray(opt, optType);
    [flags, 0, 0, 0] + BE32(ENTRY_SIZE) + EntryBytes(Linked(entry, opt)) + BE32(|options|) + options
  }

  function SdFrameMessage(payload: seq<byte>): Message {
    Message(SD_SERVICE_ID, SD_METHOD_ID, 0, 0, PROTOCOL_VERSION, 0, MSG_NOTIFICATION, RET_OK, payload)
  }

  method EncodeSdFrame(buf: array<byte>, len: nat, flags: byte, entry: Entry, opt: Option<Endpoint>, optType: byte)
    returns (out: array<byte>, outLen: nat)
    requires len <= buf.Length
    modifies buf
    ensures outLen <= out.Length
    ensures out[..outLen] == old(buf[..len]) + Codec.Frame(SdFrameMessage(Payload(flags, entry, opt, optType)))
    ensures out == buf || fresh(out)
    ensures out != buf ==> buf[..] == old(buf[..])
  {
    hide BE32, OptionBytes, EntryBytes, Codec.Frame;
    var optsBuf: seq<byte> := [];
    var e := entry;
    if opt.Some? {
      optsBuf := EncodeIPv4Option(optsBuf, optType, opt.value);
      e := e.(index1 := 0, numOpts1 := 1);
    }
    var entriesBuf := EncodeEntry([], e);
    assert entriesBuf == EntryBytes(Linked(entry, opt)) && optsBuf == OptionArray(opt, optType);
    var payload: seq<byte> := [flags, 0x00, 0x00, 0x00];
    payload := payload + BE32(|entriesBuf|);
    payload := payload + entriesBuf;
    payload := payload + BE32(|optsBuf|);
    payload := payload + optsBuf;
    var msg := Message(SD_SERVICE_ID, SD_METHOD_ID, 0, 0, 0x01, 0, MSG_NOTIFICATION, RET_OK, payload);
    out, outLen := Codec.Encode(buf, len, msg);
  }

  // ---------------------------------------------------------------- the round trip

  /** What the receiver of an encoded payload has. */
  function Received(flags: byte, entry: Entry, opt: Option<Endpoint>, optType: byte): SdMessage {
    SdMessage(flags,
              if OffersService(entry.kind) || Subscribes(entry.kind) then [Canonical(Linked(entry, opt))] else [],
              if opt.Some? then [Opt(optType, OptionBytes(optType, opt.value))] else [])
  }

  lemma PayloadFields(flags: byte, entry: Entry, opt: Option<Endpoint>, optType: byte)
    ensures var p := Payload(flags, entry, opt, optType);
      && LengthsFit(p) && p[0] == flags
      && EntriesArea(p) == EntryBytes(Linked(entry, opt)) && OptionsArea(p) == OptionArray(opt, optType)
  {
    hide U32, BE32, EntryBytes, OptionArray;
    var p := Payload(flags, entry, opt, optType);
    var options := OptionArray(opt, optType);
    var t24 := BE32(|options|) + options;
    var t8 := EntryBytes(Linked(entry, opt)) + t24;
    assert p[4..] == BE32(ENTRY_SIZE) + t8;
    assert p[8..] == t8 && p[24..] == t24 && p[28..] == options;
    U32OfBE32(ENTRY_SIZE, t8);
    U32OfBE32(|options|, options);
  }

  /** The payload byte by byte: flags, three zeros, the length of the entry, the entry, the length of the
      options, the option if there is one. */
  lemma PayloadInNumbers(flags: byte, entry: Entry, opt: Option<Endpoint>, optType: byte)
    ensures var p, sent := Payload(flags, entry, opt, optType),
        if opt.Some? then entry.(index1 := 0, numOpts1 := 1) else entry;
      && p[0] == flags && p[1..4] == [0, 0, 0] && Number(p[4..8]) == 16 && p[8..24] == EntryBytes(sent)
      && Number(p[24..28]) == |p| - 28
      && p[28..] == if opt.Some? then OptionBytes(optType, opt.value) else []
  {
    hide U32, BE32, EntryBytes, OptionBytes, Number;
    var p, options := Payload(flags, entry, opt, optType), OptionArray(opt, optType);
    var t24 := BE32(|options|) + options;
    var t8 := EntryBytes(Linked(entry, opt)) + t24;
    assert p[4..] == BE32(ENTRY_SIZE) + t8;
    assert p[8..] == t8 && p[24..] == t24 && p[28..] == options;
    U32OfBE32(ENTRY_SIZE, t8);
    U32OfBE32(|options|, options);
    NumberIs(p[4..]);
    NumberIs(p[24..]);
    assert p[4..8] == p[4..][..4] && p[24..28] == p[24..][..4] && p[8..24] == p[8..][..16];
  }

  /** Frame, then Decode, then decodeSDPayload: the header is the service-discovery one, the flags come
      back, the one entry is canonical (and lost if its type is unknown), the option array is intact. */
  lemma SdRoundTrip(flags: byte, entry: Entry, opt: Option<Endpoint>, optType: byte)
    ensures var msg := SdFrameMessage(Payload(flags, entry, opt, optType));
      && Codec.Decode(Codec.Frame(msg)) == Success(msg)
      && ParsePayload(msg.payload) == Success(Received(flags, entry, opt, optType))
  {
    hide Payload, LengthsFit, EntriesArea, OptionsArea, EntryBytes, OptionBytes, DecodeEntry;
    var p := Payload(flags, entry, opt, optType);
    var m := Received(flags, entry, opt, optType);
    Codec.DecodeOfFrame(SdFrameMessage(p));
    PayloadFields(flags, entry, opt, optType);
    OneEntry(Linked(entry, opt));
    if opt.Some? {
      OneOption(optType, opt.value);
    }
    ParsePayloadIff(p, m);
  }

  lemma OneEntry(e: Entry)
    ensures KnownPrefix(EntryBytes(e), if OffersService(e.kind) || Subscribes(e.kind) then [Canonical(e)] else [])
  {
    hide EntryBytes, DecodeEntry;
    DecodeOfEntry(e, []);
    assert EntryBytes(e) + [] == EntryBytes(e) == BlockAt(EntryBytes(e), 0);
  }

  lemma OneOption(optType: byte, o: Endpoint)
    ensures Divides([Opt(optType, OptionBytes(optType, o))], OptionBytes(optType, o))
  {
    hide U16, OptionBytes;
    DecodeOfOption(optType, o);
    var opt := Opt(optType, OptionBytes(optType, o));
    assert Block(opt);
    assert Joined([opt]) == opt.raw + Joined([]) == opt.raw;
  }

  /** The same in numbers: a notification for service 0xFFFF, method 0x8100; an entry comes through if its type
      is 0, 1, 6 or 7, with its counts at most 15, its TTL modulo 2^24 and the one field its type carries; with
      an option, its first run is that option alone. */
  lemma SdRoundTripInNumbers(flags: byte, entry: Entry, opt: Option<Endpoint>, optType: byte)
    ensures var p := Payload(flags, entry, opt, optType);
      var msg := Message(0xFFFF, 0x8100, 0, 0, 1, 0, 0x02, 0x00, p);
      var kind, ttl: int := entry.kind, entry.ttl;
      && SdFrameMessage(p) == msg && Codec.Decode(Codec.Frame(msg)) == Success(msg)
      && ParsePayload(p).Success? && ParsePayload(p).value.flags == flags
      && ParsePayload(p).value.entries == (
           if kind == 0x00 || kind == 0x01 || kind == 0x06 || kind == 0x07 then
             [Entry(kind,
                    if opt.Some? then 0 else entry.index1, entry.index2,
                    if opt.Some? then 1 else if entry.numOpts1 > 15 then 15 else entry.numOpts1,
                    if entry.numOpts2 > 15 then 15 else entry.numOpts2,
                    entry.serviceID, entry.instanceID, entry.majorVersion, ttl % 16777216,
                    if kind <= 0x01 then entry.minorVersion else 0, if kind >= 0x06 then entry.eventgroupID else 0)]
           else [])
      && ParsePayload(p).value.options == if opt.Some? then [Opt(optType, OptionBytes(optType, opt.value))] else []
  {
    hide Payload, ParsePayload, OptionBytes, Codec.Decode, Codec.Frame;
    SdRoundTrip(flags, entry, opt, optType);
  }

  /** The payload that Daemon.Find sends: any instance, any version, for three seconds. */
  function FindPayload(serviceID: uint16): seq<byte> {
    Payload(0x40, Entry(ENTRY_FIND, 0, 0, 0, 0, serviceID, 0xFFFF, 0xFF, 3, 0xFFFF_FFFF, 0), None, 0)
  }

  /** A FindService request comes through with its one entry. */
  lemma FindRoundTrip(serviceID: uint16)
    ensures ParsePayload(FindPayload(serviceID)) ==
      Success(SdMessage(0x40, [Entry(0x00, 0, 0, 0, 0, serviceID, 0xFFFF, 0xFF, 3, 0xFFFF_FFFF, 0)], []))
  {
    hide Payload, ParsePayload;
    SdRoundTripInNumbers(0x40, Entry(0x00, 0, 0, 0, 0, serviceID, 0xFFFF, 0xFF, 3, 0xFFFF_FFFF, 0), None, 0);
  }

  /** The receiver resolves the endpoint exactly when one was sent under the endpoint option type: then
      the address reads back as its four bytes, and as 0.0.0.0 when it had none. */
  lemma EndpointComesThrough(flags: byte, entry: Entry, opt: Option<Endpoint>, optType: byte)
    requires entry.kind == 0x00 || entry.kind == 0x01 || entry.kind == 0x06 || entry.kind == 0x07
    ensures var m := Received(flags, entry, opt, optType);
      ResolveIPv4Endpoint(m.entries[0], m.options) ==
        if opt.Some? && optType == 0x04
        then Some(opt.value.(ip := AddressBytes(opt.value.ip))) else None
  {
    hide OptionBytes, DecodeIPv4Option;
    var m := Received(flags, entry, opt, optType);
    if opt.Some? {
      DecodeOfOption(optType, opt.value);
      var o := m.options[0];
      assert AsEndpoint(o).Some? <==> optType == OPTION_IPV4_ENDPOINT;
      var e := m.entries[0];
      var run1, run2 := Run(m.options, e.index1, e.numOpts1), Run(m.options, e.index2, e.numOpts2);
      assert run1 == [o];
      assert run2 == [] || run2 == [o];
      assert FirstEndpoint([o]) == AsEndpoint(o) || FirstEndpoint([o]) == FirstEndpoint([]);
    }
  }
}
