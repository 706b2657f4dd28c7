/** SOME/IP-SD entries and options (sd/sd.go). */
module SdFormat {
  import opened Bytes
  import opened Buffers
  import opened Results

  const SD_SERVICE_ID: uint16 := 0xFFFF
  const SD_METHOD_ID: uint16 := 0x8100

  const ENTRY_FIND: byte := 0x00
  const ENTRY_OFFER: byte := 0x01
  const ENTRY_SUBSCRIBE: byte := 0x06
  const ENTRY_SUBSCRIBE_ACK: byte := 0x07
  const OPTION_IPV4_ENDPOINT: byte := 0x04
  const ENTRY_SIZE: int := 16

  datatype SdError = ShortEntry | ShortOption | UnknownEntryType

  datatype Entry = Entry(
    kind: byte,
    index1: byte, index2: byte,
    numOpts1: byte, numOpts2: byte,
    serviceID: uint16, instanceID: uint16,
    majorVersion: byte,
    ttl: uint32,
    minorVersion: uint32,
    eventgroupID: uint16)

  // ---------------------------------------------------------------- entries

  predicate OffersService(kind: byte) {
    kind == ENTRY_FIND || kind == ENTRY_OFFER
  }

  predicate Subscribes(kind: byte) {
    kind == ENTRY_SUBSCRIBE || kind == ENTRY_SUBSCRIBE_ACK
  }

  /** A count as the 4-bit field shows it. */
  function Saturated(n: byte): byte {
    if n > 15 then 15 else n
  }

  /** The sixteen bytes of an entry. */
  function EntryBytes(e: Entry): (b: seq<byte>)
    ensures |b| == ENTRY_SIZE
  {
    var counts: int := Saturated(e.numOpts1) * 16 + Saturated(e.numOpts2);
    var ttl: int := e.ttl;
    [e.kind, e.index1, e.index2, counts] +
    BE16(e.serviceID) + BE16(e.instanceID) +
    [e.majorVersion, ttl / 0x1_0000 % 0x100, ttl / 0x100 % 0x100, ttl % 0x100] +
    LastBytes(e)
  }

  function LastBytes(e: Entry): (b: seq<byte>)
    ensures |b| == 4
  {
    if Subscribes(e.kind) then [0, 0] + BE16(e.eventgroupID) else BE32(e.minorVersion)
  }

  function DecodeEntry(b: seq<byte>): Result<Entry, SdError> {
    if |b| < ENTRY_SIZE then Failure(ShortEntry)
    else
      var counts: int := b[3];
      var t0: int, t1: int, t2: int := b[9], b[10], b[11];
      var e := Entry(b[0], b[1], b[2], counts / 16, counts % 16, U16(b[4..]), U16(b[6..]), b[8],
                     t0 * 0x1_0000 + t1 * 0x100 + t2, 0, 0);
      if OffersService(b[0]) then Success(e.(minorVersion := U32(b[12..])))
      else if Subscribes(b[0]) then Success(e.(eventgroupID := U16(b[14..])))
      else Failure(UnknownEntryType)
  }

  /** The entry as it reads back: counts saturated, TTL modulo 2^24, only the field its type carries. */
  function Canonical(e: Entry): Entry {
    e.(numOpts1 := Saturated(e.numOpts1), numOpts2 := Saturated(e.numOpts2), ttl := e.ttl % 0x100_0000,
       minorVersion := if OffersService(e.kind) then e.minorVersion else 0,
       eventgroupID := if Subscribes(e.kind) then e.eventgroupID else 0)
  }

  lemma Nibbles(a: int, b: int)
    requires 0 <= a <= 15 && 0 <= b <= 15
    ensures (a * 16 + b) / 16 == a && (a * 16 + b) % 16 == b
  {
  }

  lemma ThreeBytes(v: uint32)
    ensures v / 0x1_0000 % 0x100 * 0x1_0000 + v / 0x100 % 0x100 * 0x100 + v % 0x100 == v % 0x100_0000
  {
    var q := v / 0x100;
    assert v == q * 0x100 + v % 0x100;
    assert q / 0x100 == v / 0x1_0000;
    var r := q / 0x100;
    assert q == r * 0x100 + q % 0x100;
    assert r % 0x100 == r - r / 0x100 * 0x100;
    assert v % 0x100_0000 == v - r / 0x100 * 0x100_0000;
  }

  /** An entry of a known type reads back as its canonical form; any other type is rejected. */
  lemma DecodeOfEntry(e: Entry, rest: seq<byte>)
    ensures DecodeEntry(EntryBytes(e) + rest) ==
      if OffersService(e.kind) || Subscribes(e.kind) then Success(Canonical(e)) else Failure(UnknownEntryType)
  {
    hide U16, U32, BE16, BE32;
    var b := EntryBytes(e) + rest;
    assert b[12..] == LastBytes(e) + rest;
    assert b[4..] == BE16(e.serviceID) + b[6..];
    assert b[6..] == BE16(e.instanceID) + b[8..];
    assert Subscribes(e.kind) ==> b[14..] == BE16(e.eventgroupID) + rest;
    U16OfBE16(e.serviceID, b[6..]);
    U16OfBE16(e.instanceID, b[8..]);
    U16OfBE16(e.eventgroupID, rest);
    U32OfBE32(e.minorVersion, rest);
    Nibbles(Saturated(e.numOpts1), Saturated(e.numOpts2));
    ThreeBytes(e.ttl);
  }

  /** Only the two bytes that a subscription reserves can be lost: an accepted block is the encoding of
      what it decodes to exactly when they are zero. */
  lemma EntryOfDecode(b: seq<byte>)
    requires DecodeEntry(b).Success?
    ensures Canonical(DecodeEntry(b).value) == DecodeEntry(b).value
    ensures EntryBytes(DecodeEntry(b).value) == b[..16] <==> Subscribes(b[0]) ==> b[12] == b[13] == 0
  {
    hide U16, U32, BE16, BE32, EntryBytes;
    var e := DecodeEntry(b).value;
    FirstTwelve(b);
    if Subscribes(b[0]) {
      BE16OfU16(b[14..]);
      assert b[14..][..2] == b[14..16];
    } else {
      BE32OfU32(b[12..]);
      assert b[12..][..4] == b[12..16];
    }
    SameTail(b[..16], 12, LastBytes(e));
  }

  lemma FirstTwelve(b: seq<byte>)
    requires DecodeEntry(b).Success?
    ensures EntryBytes(DecodeEntry(b).value) == b[..12] + LastBytes(DecodeEntry(b).value)
  {
    hide U16, U32, BE16, BE32, LastBytes;
    var e := DecodeEntry(b).value;
    BE16OfU16(b[4..]);
    BE16OfU16(b[6..]);
    EntryPieces(b);
    NibblesBack(b[3]);
    ThreeBytesBack(b[9], b[10], b[11]);
  }

  lemma NibblesBack(n: byte)
    ensures n / 16 * 16 + n % 16 == n && n / 16 <= 15 && n % 16 <= 15
  {
  }

  lemma ThreeBytesBack(a: byte, b: byte, c: byte)
    ensures var v: int := a * 0x1_0000 + b * 0x100 + c;
      v / 0x1_0000 % 0x100 == a && v / 0x100 % 0x100 == b && v % 0x100 == c
  {
    assert (a * 0x1_0000 + b * 0x100 + c) / 0x100 == a * 0x100 + b;
  }

  lemma EntryPieces(b: seq<byte>)
    requires |b| >= ENTRY_SIZE
    ensures b[..12] == [b[0], b[1], b[2], b[3]] + b[4..][..2] + b[6..][..2] + [b[8], b[9], b[10], b[11]]
  {
  }

  lemma SameTail(b: seq<byte>, n: nat, tail: seq<byte>)
    requires n + |tail| == |b|
    ensures b[..n] + tail == b <==> tail == b[n..]
  {
    assert (b[..n] + tail)[n..] == tail;
    assert b[..n] + b[n..] == b;
  }

  method EncodeEntry(dst: seq<byte>, e: Entry) returns (r: seq<byte>)
    ensures r == dst + EntryBytes(e)
  {
    hide Overlay, Filled, BE16, BE32;
    var b := ZeroBuffer(ENTRY_SIZE);
    var numOpts1, numOpts2 := e.numOpts1, e.numOpts2;
    if numOpts1 > 0x0F {
      numOpts1 := 0x0F;
    }
    if numOpts2 > 0x0F {
      numOpts2 := 0x0F;
    }
    var high: int, low: int := numOpts1, numOpts2;
    Copy(b, 0, [e.kind, e.index1, e.index2, high * 16 + low]);
    ghost var done := FillNext([], 16, [e.kind, e.index1, e.index2, high * 16 + low]);
    PutUint16(b, 4, e.serviceID);
    done := FillNext(done, 12, BE16(e.serviceID));
    PutUint16(b, 6, e.instanceID);
    done := FillNext(done, 10, BE16(e.instanceID));
    var ttl: int := e.ttl;
    Copy(b, 8, [e.majorVersion, ttl / 0x1_0000 % 0x100, ttl / 0x100 % 0x100, ttl % 0x100]);
    done := FillNext(done, 8, [e.majorVersion, ttl / 0x1_0000 % 0x100, ttl / 0x100 % 0x100, ttl % 0x100]);
    PutLast(b, done, e);
    return dst + b[..];
  }

  /** The type-dependent last four bytes. */
  method PutLast(b: array<byte>, ghost done: seq<byte>, e: Entry)
    requires |done| == 12 && b[..] == Filled(done, 4)
    modifies b
    ensures b[..] == done + LastBytes(e)
  {
    hide Overlay, Filled, BE16, BE32;
    if e.kind == ENTRY_SUBSCRIBE || e.kind == ENTRY_SUBSCRIBE_ACK {
      SkipZeros(done, 4, [0, 0]);
      PutUint16(b, 14, e.eventgroupID);
      ghost var all := FillNext(done + [0, 0], 2, BE16(e.eventgroupID));
      assert all == done + LastBytes(e);
    } else {
      PutUint32(b, 12, e.minorVersion);
      ghost var all := FillNext(done, 4, BE32(e.minorVersion));
    }
  }

  // ---------------------------------------------------------------- entries byte by byte

  /** Which blocks are entries, and what they hold: find and offer (types 0 and 1) a minor version, subscribe
      and its acknowledgement (6 and 7) an eventgroup. All numbers are big-endian. */
  lemma DecodeEntryInNumbers(b: seq<byte>)
    ensures DecodeEntry(b) ==
      if |b| < 16 then Failure(ShortEntry)
      else
        var counts: int := b[3];
        var e := Entry(b[0], b[1], b[2], counts / 16, counts % 16, Number(b[4..6]), Number(b[6..8]), b[8],
                       Number(b[9..12]), 0, 0);
        if b[0] == 0x00 || b[0] == 0x01 then Success(e.(minorVersion := Number(b[12..16])))
        else if b[0] == 0x06 || b[0] == 0x07 then Success(e.(eventgroupID := Number(b[14..16])))
        else Failure(UnknownEntryType)
  {
    hide U16, U32, Number;
    if |b| >= 16 {
      NumberIs(b[4..]);
      NumberIs(b[6..]);
      NumberIs(b[12..]);
      NumberIs(b[14..]);
      assert b[4..6] == b[4..][..2] && b[6..8] == b[6..][..2];
      assert b[12..16] == b[12..][..4] && b[14..16] == b[14..][..2];
      ThreeByteNumber(b[9..12]);
    }
  }

  lemma ThreeByteNumber(b: seq<byte>)
    requires |b| == 3
    ensures var b0: int, b1: int, b2: int := b[0], b[1], b[2]; Number(b) == b0 * 0x1_0000 + b1 * 0x100 + b2
  {
    assert b[..2][..1] == b[..1] && b[..1][..0] == [];
    assert Number(b[..1]) == b[0];
    assert Number(b[..2]) == 256 * Number(b[..1]) + b[1];
  }

  /** The sixteen bytes of an entry: counts above 15 as 15, the TTL modulo 2^24. */
  lemma EntryInNumbers(e: Entry)
    ensures var f, n1, n2 :=
        EntryBytes(e), if e.numOpts1 > 15 then 15 else e.numOpts1, if e.numOpts2 > 15 then 15 else e.numOpts2;
      && f[0] == e.kind && f[1] == e.index1 && f[2] == e.index2 && f[3] == 16 * n1 + n2
      && Number(f[4..6]) == e.serviceID && Number(f[6..8]) == e.instanceID && f[8] == e.majorVersion
      && Number(f[9..12]) == e.ttl % 16777216
      && if e.kind == 0x06 || e.kind == 0x07 then f[12..14] == [0, 0] && Number(f[14..16]) == e.eventgroupID
         else Number(f[12..16]) == e.minorVersion
  {
    hide U16, U32, BE16, BE32, Number;
    var f := EntryBytes(e);
    ThreeByteNumber(f[9..12]);
    ThreeBytes(e.ttl);
    U16OfBE16(e.serviceID, []);
    U16OfBE16(e.instanceID, []);
    U16OfBE16(e.eventgroupID, []);
    U32OfBE32(e.minorVersion, []);
    NumberIs(BE16(e.serviceID) + []);
    NumberIs(BE16(e.instanceID) + []);
    NumberIs(BE16(e.eventgroupID) + []);
    NumberIs(BE32(e.minorVersion) + []);
    assert f[4..6] == (BE16(e.serviceID) + [])[..2] && f[6..8] == (BE16(e.instanceID) + [])[..2];
    LastFour(e);
  }

  lemma LastFour(e: Entry)
    ensures var f := EntryBytes(e);
      && (Subscribes(e.kind) ==> f[12..14] == [0, 0] && f[14..16] == (BE16(e.eventgroupID) + [])[..2])
      && (!Subscribes(e.kind) ==> f[12..16] == (BE32(e.minorVersion) + [])[..4])
  {
    hide BE16, BE32;
  }

  // ---------------------------------------------------------------- IPv4 endpoint options

  datatype Endpoint = Endpoint(ip: seq<byte>, protocol: byte, port: uint16)

  const IPV4_OPTION_LENGTH: uint16 := 9

  /** net.IP.To4: the four address bytes of an IPv4 or IPv4-mapped address. */
  function To4(ip: seq<byte>): Option<seq<byte>> {
    if |ip| == 4 then Some(ip)
    else if |ip| == 16 && (forall i | 0 <= i < 10 :: ip[i] == 0) && ip[10] == 0xFF && ip[11] == 0xFF then Some(ip[12..])
    else None
  }

  function AddressBytes(ip: seq<byte>): (a: seq<byte>)
    ensures |a| == 4
  {
    if To4(ip).Some? then To4(ip).value else [0, 0, 0, 0]
  }

  function OptionBytes(kind: byte, o: Endpoint): (b: seq<byte>)
    ensures |b| == 12
  {
    BE16(IPV4_OPTION_LENGTH) + [kind, 0] + AddressBytes(o.ip) + [0, o.protocol] + BE16(o.port)
  }

  function DecodeIPv4Option(b: seq<byte>): Result<Endpoint, SdError> {
    if |b| < 12 then Failure(ShortOption) else Success(Endpoint(b[4..8], b[9], U16(b[10..])))
  }

  lemma DecodeOfOption(kind: byte, o: Endpoint)
    ensures DecodeIPv4Option(OptionBytes(kind, o)) == Success(o.(ip := AddressBytes(o.ip)))
    ensures U16(OptionBytes(kind, o)) == 9 && OptionBytes(kind, o)[2] == kind
  {
    hide U16, BE16;
    var b := OptionBytes(kind, o);
    var tail := [kind, 0] + AddressBytes(o.ip) + [0, o.protocol] + BE16(o.port);
    assert b == BE16(IPV4_OPTION_LENGTH) + tail;
    assert b[10..] == BE16(o.port) + [];
    assert b[4..8] == AddressBytes(o.ip);
    U16OfBE16(IPV4_OPTION_LENGTH, tail);
    U16OfBE16(o.port, []);
  }

  /** The twelve bytes of an option and how they read back. The address is written as its four bytes, also
      when it comes in its sixteen-byte form, and as zeros when it is no IPv4 address. */
  lemma OptionInNumbers(kind: byte, o: Endpoint)
    ensures var f := OptionBytes(kind, o);
      && Number(f[0..2]) == 9 && f[2] == kind && f[3] == 0 && f[8] == 0 && f[9] == o.protocol
      && Number(f[10..12]) == o.port
      && f[4..8] ==
           if |o.ip| == 4 then o.ip
           else if |o.ip| == 16 && o.ip[..12] == [0, 0, 0, 0, 0, 0, 0, 0, 0, 0, 0xFF, 0xFF] then o.ip[12..]
           else [0, 0, 0, 0]
  {
    hide BE16, Number, U16;
    var f := OptionBytes(kind, o);
    U16OfBE16(9, []);
    U16OfBE16(o.port, []);
    NumberIs(BE16(9) + []);
    NumberIs(BE16(o.port) + []);
    assert f[0..2] == (BE16(9) + [])[..2] && f[10..12] == (BE16(o.port) + [])[..2];
    assert f[4..8] == AddressBytes(o.ip);
    MappedAddress(o.ip);
  }

  lemma MappedAddress(ip: seq<byte>)
    ensures AddressBytes(ip) ==
      if |ip| == 4 then ip
      else if |ip| == 16 && ip[..12] == [0, 0, 0, 0, 0, 0, 0, 0, 0, 0, 0xFF, 0xFF] then ip[12..]
      else [0, 0, 0, 0]
  {
    if |ip| == 16 {
      var head := ip[..12];
      assert forall i | 0 <= i < 12 :: head[i] == ip[i];
      assert (forall i | 0 <= i < 10 :: ip[i] == 0) <==> forall i | 0 <= i < 10 :: head[i] == 0;
      if To4(ip).Some? {
        assert head == [0, 0, 0, 0, 0, 0, 0, 0, 0, 0, 0xFF, 0xFF];
      }
    }
  }

  lemma DecodeOptionInNumbers(b: seq<byte>)
    ensures DecodeIPv4Option(b) ==
      if |b| < 12 then Failure(ShortOption) else Success(Endpoint(b[4..8], b[9], Number(b[10..12])))
  {
    if |b| >= 12 {
      NumberIs(b[10..]);
      assert b[10..12] == b[10..][..2];
    }
  }

  method EncodeIPv4Option(dst: seq<byte>, kind: byte, o: Endpoint) returns (r: seq<byte>)
    ensures r == dst + OptionBytes(kind, o)
  {
    hide Overlay, Filled, BE16, To4, AddressBytes;
    var b := ZeroBuffer(12);
    PutUint16(b, 0, IPV4_OPTION_LENGTH);
    ghost var done := FillNext([], 12, BE16(IPV4_OPTION_LENGTH));
    Copy(b, 2, [kind, 0x00]);
    done := FillNext(done, 10, [kind, 0]);
    PutAddress(b, done, o.ip);
    done := done + AddressBytes(o.ip);
    Copy(b, 8, [0x00, o.protocol]);
    done := FillNext(done, 4, [0, o.protocol]);
    PutUint16(b, 10, o.port);
    done := FillNext(done, 2, BE16(o.port));
    return dst + b[..];
  }

  method PutAddress(b: array<byte>, ghost done: seq<byte>, address: seq<byte>)
    requires |done| == 4 && b[..] == Filled(done, 8)
    modifies b
    ensures b[..] == Filled(done + AddressBytes(address), 4)
  {
    hide Overlay, Filled;
    var ip := To4(address);
    if ip.Some? {
      Copy(b, 4, ip.value);
      ghost var more := FillNext(done, 8, ip.value);
    } else {
      SkipZeros(done, 8, [0, 0, 0, 0]);
    }
  }

  // ---------------------------------------------------------------- the options array

  datatype Opt = Opt(kind: byte, raw: seq<byte>)

  /** One option on the wire: its 16-bit length is at least 1 and counts all bytes but the first three. */
  predicate Block(o: Opt) {
    |o.raw| >= 4 && U16(o.raw) == |o.raw| - 3 && o.kind == o.raw[2]
  }

  function Joined(opts: seq<Opt>): seq<byte> {
    if opts == [] then [] else opts[0].raw + Joined(opts[1..])
  }

  /** opts is a division of b into well-formed options. */
  predicate Divides(opts: seq<Opt>, b: seq<byte>) {
    (forall o | o in opts :: Block(o)) && Joined(opts) == b
  }

  function ParseOptions(b: seq<byte>): Result<seq<Opt>, SdError>
    decreases |b|
  {
    if b == [] then Success([])
    else if |b| < 3 then Failure(ShortOption)
    else
      var size := 3 + U16(b);
      if size < 4 || size > |b| then Failure(ShortOption)
      else
        match ParseOptions(b[size..])
        case Failure(error) => Failure(error)
        case Success(rest) => Success([Opt(b[2], b[..size])] + rest)
  }

  /** The parser is exact: it succeeds precisely on the byte strings that are a sequence of options, and
      returns that sequence, which is unique. */
  lemma {:induction false} ParseOptionsIff(b: seq<byte>, opts: seq<Opt>)
    ensures ParseOptions(b) == Success(opts) <==> Divides(opts, b)
    decreases |b|
  {
    hide U16;
    if Divides(opts, b) && opts != [] {
      FirstBlock(opts, b);
      ParseOptionsIff(b[|opts[0].raw|..], opts[1..]);
      assert opts == [opts[0]] + opts[1..];
    }
    if ParseOptions(b) == Success(opts) && b != [] {
      var size := 3 + U16(b);
      ParseOptionsIff(b[size..], opts[1..]);
      SamePrefix(b, size);
      assert b == b[..size] + b[size..];
      assert Block(opts[0]);
    }
  }

  lemma SamePrefix(b: seq<byte>, n: nat)
    requires 2 <= n <= |b|
    ensures U16(b[..n]) == U16(b)
  {
  }

  lemma FirstBlock(opts: seq<Opt>, b: seq<byte>)
    requires Divides(opts, b) && opts != []
    ensures |b| >= |opts[0].raw| >= 4 && U16(b) == |opts[0].raw| - 3
    ensures b[..|opts[0].raw|] == opts[0].raw && b[2] == opts[0].kind
    ensures Divides(opts[1..], b[|opts[0].raw|..])
  {
    hide U16;
    assert Block(opts[0]);
    SamePrefix(b, |opts[0].raw|);
  }

  method DecodeOptions(b: seq<byte>) returns (r: Result<seq<Opt>, SdError>)
    ensures r == ParseOptions(b)
  {
    hide U16;
    var opts: seq<Opt> := [];
    var offset := 0;
    assert b[0..] == b;
    PrependNone(ParseOptions(b));
    while offset < |b|
      invariant 0 <= offset <= |b|
      invariant ParseOptions(b) == Prepended(opts, ParseOptions(b[offset..]))
    {
      var rest := b[offset..];
      if offset + 3 > |b| {
        return Failure(ShortOption);
      }
      var length := U16(rest);
      var size := 2 + 1 + length;
      if length < 1 || offset + size > |b| {
        return Failure(ShortOption);
      }
      var opt := Opt(b[offset + 2], b[offset..offset + size]);
      assert rest[..size] == opt.raw && rest[size..] == b[offset + size..];
      PrependNext(opts, opt, ParseOptions(b[offset + size..]));
      opts := opts + [opt];
      offset := offset + size;
    }
    assert b[offset..] == [] && opts + [] == opts;
    return Success(opts);
  }

  function Prepended(opts: seq<Opt>, r: Result<seq<Opt>, SdError>): Result<seq<Opt>, SdError> {
    match r
    case Failure(error) => Failure(error)
    case Success(rest) => Success(opts + rest)
  }

  lemma PrependNone(r: Result<seq<Opt>, SdError>)
    ensures Prepended([], r) == r
  {
    if r.Success? {
      assert [] + r.value == r.value;
    }
  }

  lemma PrependNext(opts: seq<Opt>, opt: Opt, r: Result<seq<Opt>, SdError>)
    ensures Prepended(opts, Prepended([opt], r)) == Prepended(opts + [opt], r)
  {
    if r.Success? {
      assert opts + ([opt] + r.value) == opts + [opt] + r.value;
    }
  }

  // ---------------------------------------------------------------- option runs

  function AsEndpoint(o: Opt): Option<Endpoint> {
    if o.kind == OPTION_IPV4_ENDPOINT && DecodeIPv4Option(o.raw).Success?
    then Some(DecodeIPv4Option(o.raw).value) else None
  }

  function FirstEndpoint(opts: seq<Opt>): Option<Endpoint> {
    if opts == [] then None
    else if AsEndpoint(opts[0]).Some? then AsEndpoint(opts[0])
    else FirstEndpoint(opts[1..])
  }

  /** The options a run refers to; a run that leaves the array refers to none. */
  function Run(opts: seq<Opt>, index: byte, num: byte): seq<Opt> {
    var i: int, n: int := index, num;
    if n == 0 || i + n > |opts| then [] else opts[i..i + n]
  }

  function ResolveIPv4Endpoint(e: Entry, opts: seq<Opt>): Option<Endpoint> {
    var first := FirstEndpoint(Run(opts, e.index1, e.numOpts1));
    if first.Some? then first else FirstEndpoint(Run(opts, e.index2, e.numOpts2))
  }

  // ---------------------------------------------------------------- what is resolved

  /** Option i belongs to a run inside the array, and is an IPv4 endpoint option of sufficient length. */
  predicate Candidate(opts: seq<Opt>, index: byte, num: byte, i: int) {
    var first: int, n: int := index, num;
    first + n <= |opts| && first <= i < first + n && opts[i].kind == 0x04 && |opts[i].raw| >= 12
  }

  ghost predicate FirstCandidate(opts: seq<Opt>, index: byte, num: byte, i: int, endpoint: Endpoint) {
    Candidate(opts, index, num, i) &&
    endpoint == Endpoint(opts[i].raw[4..8], opts[i].raw[9], Number(opts[i].raw[10..12])) &&
    forall j | Candidate(opts, index, num, j) :: i <= j
  }

  /** The endpoint is that of the first option of the first run that reads as one; the second run is
      consulted only when the first has none. */
  lemma ResolveIff(e: Entry, opts: seq<Opt>, endpoint: Endpoint)
    ensures ResolveIPv4Endpoint(e, opts) == Some(endpoint) <==>
      (exists i :: FirstCandidate(opts, e.index1, e.numOpts1, i, endpoint)) ||
      ((forall j :: !Candidate(opts, e.index1, e.numOpts1, j)) &&
       (exists i :: FirstCandidate(opts, e.index2, e.numOpts2, i, endpoint)))
  {
    hide AsEndpoint, FirstCandidate, Candidate;
    RunIff(opts, e.index1, e.numOpts1);
    RunIff(opts, e.index2, e.numOpts2);
  }

  lemma EndpointIff(o: Opt)
    ensures AsEndpoint(o).Some? <==> o.kind == 0x04 && |o.raw| >= 12
    ensures AsEndpoint(o).Some? ==> AsEndpoint(o).value == Endpoint(o.raw[4..8], o.raw[9], Number(o.raw[10..12]))
  {
    DecodeOptionInNumbers(o.raw);
  }

  lemma RunIff(opts: seq<Opt>, index: byte, num: byte)
    ensures forall endpoint :: FirstEndpoint(Run(opts, index, num)) == Some(endpoint) <==>
      exists i :: FirstCandidate(opts, index, num, i, endpoint)
    ensures FirstEndpoint(Run(opts, index, num)) == None <==> forall j :: !Candidate(opts, index, num, j)
  {
    hide AsEndpoint, Number;
    forall o ensures AsEndpoint(o).Some? <==> o.kind == 0x04 && |o.raw| >= 12
      ensures AsEndpoint(o).Some? ==> AsEndpoint(o).value == Endpoint(o.raw[4..8], o.raw[9], Number(o.raw[10..12]))
    {
      EndpointIff(o);
    }
    var run := Run(opts, index, num);
    var first: int := index;
    assert forall j | 0 <= j < |run| :: run[j] == opts[first + j];
    var k := FirstEndpointAt(run);
    assert forall j :: Candidate(opts, index, num, j) ==> AsEndpoint(run[j - first]).Some?;
    if k < |run| {
      assert FirstCandidate(opts, index, num, first + k, AsEndpoint(run[k]).value);
    } else if j :| Candidate(opts, index, num, j) {
      assert false;
    }
  }

  lemma {:induction false} FirstEndpointAt(opts: seq<Opt>) returns (k: nat)
    ensures k <= |opts|
    ensures forall j | 0 <= j < k :: AsEndpoint(opts[j]).None?
    ensures k < |opts| ==> AsEndpoint(opts[k]).Some? && FirstEndpoint(opts) == AsEndpoint(opts[k])
    ensures k == |opts| ==> FirstEndpoint(opts) == None
  {
    hide AsEndpoint;
    if opts == [] || AsEndpoint(opts[0]).Some? {
      k := 0;
    } else {
      var k' := FirstEndpointAt(opts[1..]);
      k := k' + 1;
      forall j | 0 <= j < k ensures AsEndpoint(opts[j]).None? {
        assert j == 0 || opts[j] == opts[1..][j - 1];
      }
    }
  }
}
