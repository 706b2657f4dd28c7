/** The service registry (sd/sd.go) and how a daemon feeds it from received frames (sd/udp/sdudp.go). */
module SdRegistry {
  import opened Bytes
  import opened SomeIp
  import opened Results
  import opened SdFormat
  import opened SdPayload
  import Codec

  const SECOND: int := 1_000_000_000
  const ALL_SERVICES: uint16 := 0xFFFF
  const FLAG_REBOOT: byte := 0x80

  datatype Key = Key(serviceID: uint16, instanceID: uint16)

  datatype Record = Record(entry: Entry, endpoint: Endpoint, expires: int)

  type Services = map<Key, Record>

  function KeyOf(e: Entry): Key {
    Key(e.serviceID, e.instanceID)
  }

  function Offered(services: Services, e: Entry, endpoint: Endpoint, now: int): Services {
    if e.ttl == 0 then services - {KeyOf(e)}
    else services[KeyOf(e) := Record(e, endpoint, now + e.ttl * SECOND)]
  }

  predicate Visible(r: Record, serviceID: uint16, now: int) {
    now <= r.expires && (serviceID == ALL_SERVICES || r.entry.serviceID == serviceID)
  }

  /** A record stands under its own key and has a positive time to live. */
  predicate Inv(services: Services) {
    forall k | k in services :: KeyOf(services[k].entry) == k && services[k].entry.ttl > 0
  }

  class Registry {
    var services: Services

    constructor ()
      ensures services == map[]
    {
      services := map[];
    }

    method Offer(e: Entry, endpoint: Endpoint, now: int)
      modifies this
      ensures services == Offered(old(services), e, endpoint, now)
      ensures Inv(old(services)) ==> Inv(services)
    {
      var key := KeyOf(e);
      if e.ttl == 0 {
        services := services - {key};
      } else {
        services := services[key := Record(e, endpoint, now + e.ttl * SECOND)];
      }
    }

    /** The map is visited in an order the caller cannot know. */
    method Find(serviceID: uint16, now: int) returns (found: seq<Record>)
      requires Inv(services)
      ensures forall r :: r in found <==>
        r in services.Values && now <= r.expires && (serviceID == 0xFFFF || r.entry.serviceID == serviceID)
      ensures forall i, j | 0 <= i < j < |found| :: found[i] != found[j]
    {
      found := [];
      var left := services.Keys;
      while left != {}
        invariant left <= services.Keys
        invariant forall r :: r in found ==>
          KeyOf(r.entry) in services.Keys - left && services[KeyOf(r.entry)] == r && Visible(r, serviceID, now)
        invariant forall k | k in services.Keys - left :: Visible(services[k], serviceID, now) ==> services[k] in found
        invariant forall i, j | 0 <= i < j < |found| :: found[i] != found[j]
        decreases |left|
      {
        var k :| k in left;
        left := left - {k};
        if Visible(services[k], serviceID, now) {
          found := found + [services[k]];
        }
      }
    }
  }

  /** One record per service and instance. */
  lemma SameKeyIff(a: Entry, b: Entry)
    ensures KeyOf(a) == KeyOf(b) <==> a.serviceID == b.serviceID && a.instanceID == b.instanceID
  {
  }

  // ---------------------------------------------------------------- runs of offers

  datatype OfferCall = OfferCall(entry: Entry, endpoint: Endpoint, now: int)

  function AfterOffers(services: Services, calls: seq<OfferCall>): Services
    decreases |calls|
  {
    if calls == [] then services
    else
      var c := calls[|calls| - 1];
      Offered(AfterOffers(services, calls[..|calls| - 1]), c.entry, c.endpoint, c.now)
  }

  /** Call i is the last one for its key. */
  predicate LastFor(calls: seq<OfferCall>, i: int, key: Key) {
    0 <= i < |calls| && KeyOf(calls[i].entry) == key &&
    forall j | i < j < |calls| :: KeyOf(calls[j].entry) != key
  }

  /** The last offer of a service instance decides alone what the registry holds for it. */
  lemma {:induction false} LastOfferWins(services: Services, calls: seq<OfferCall>, i: int, key: Key)
    requires LastFor(calls, i, key)
    ensures var c := calls[i];
      if c.entry.ttl == 0 then key !in AfterOffers(services, calls)
      else key in AfterOffers(services, calls) &&
           AfterOffers(services, calls)[key] == Record(c.entry, c.endpoint, c.now + c.entry.ttl * 1_000_000_000)
    decreases |calls|
  {
    if i < |calls| - 1 {
      LastOfferWins(services, calls[..|calls| - 1], i, key);
    }
  }

  // ---------------------------------------------------------------- a daemon's handling of frames

  /** handleEntry on the registry: an offer registers the endpoint its options name, else its sender's. */
  function EntryHandled(services: Services, e: Entry, opts: seq<Opt>, from: Endpoint, now: int): Services {
    if e.kind != ENTRY_OFFER then services
    else
      var endpoint := ResolveIPv4Endpoint(e, opts);
      Offered(services, e, if endpoint.Some? then endpoint.value else from, now)
  }

  function EntriesHandled(services: Services, es: seq<Entry>, opts: seq<Opt>, from: Endpoint, now: int): Services
    decreases |es|
  {
    if es == [] then services
    else EntryHandled(EntriesHandled(services, es[..|es| - 1], opts, from, now), es[|es| - 1], opts, from, now)
  }

  function FrameHandled(services: Services, frame: seq<byte>, from: Endpoint, now: int): Services {
    match Codec.Decode(frame)
    case Failure(_) => services
    case Success(msg) =>
      if msg.serviceID != SD_SERVICE_ID || msg.methodID != SD_METHOD_ID then services
      else
        match ParsePayload(msg.payload)
        case Failure(_) => services
        case Success(m) => EntriesHandled(services, m.entries, m.options, from, now)
  }

  method HandleFrame(registry: Registry, frame: seq<byte>, from: Endpoint, now: int)
    modifies registry
    ensures registry.services == FrameHandled(old(registry.services), frame, from, now)
    ensures Inv(old(registry.services)) ==> Inv(registry.services)
  {
    var decoded := Codec.Decode(frame);
    if decoded.Failure? {
      return;
    }
    var msg := decoded.value;
    if msg.serviceID != SD_SERVICE_ID || msg.methodID != SD_METHOD_ID {
      return;
    }
    var parsed := DecodeSdPayload(msg.payload);
    if parsed.Failure? {
      return;
    }
    var entries, opts := parsed.value.entries, parsed.value.options;
    for i := 0 to |entries|
      invariant registry.services == EntriesHandled(old(registry.services), entries[..i], opts, from, now)
      invariant Inv(old(registry.services)) ==> Inv(registry.services)
    {
      assert entries[..i + 1][..i] == entries[..i];
      HandleEntry(registry, entries[i], opts, from, now);
    }
    assert entries[..|entries|] == entries;
  }

  method HandleEntry(registry: Registry, e: Entry, opts: seq<Opt>, from: Endpoint, now: int)
    modifies registry
    ensures registry.services == EntryHandled(old(registry.services), e, opts, from, now)
    ensures Inv(old(registry.services)) ==> Inv(registry.services)
  {
    if e.kind == ENTRY_OFFER {
      var endpoint := ResolveIPv4Endpoint(e, opts);
      registry.Offer(e, if endpoint.Some? then endpoint.value else from, now);
    }
  }

  /** What never changes the registry: frames that do not decode, frames for another service or method than
      0xFFFF and 0x8100, and entries of another type than offer (1). */
  lemma OthersChangeNothing(services: Services, frame: seq<byte>, from: Endpoint, now: int)
    ensures var r := Codec.Decode(frame);
      r.Failure? || r.value.serviceID != 0xFFFF || r.value.methodID != 0x8100 ||
      ParsePayload(r.value.payload).Failure? ||
      (forall e | e in ParsePayload(r.value.payload).value.entries :: e.kind != 0x01) ==>
        FrameHandled(services, frame, from, now) == services
  {
    hide Codec.Decode, ParsePayload;
    var r := Codec.Decode(frame);
    if r.Success? && ParsePayload(r.value.payload).Success? {
      var m := ParsePayload(r.value.payload).value;
      if forall e | e in m.entries :: e.kind != 0x01 {
        NoOffers(services, m.entries, m.options, from, now);
      }
    }
  }

  lemma {:induction false} NoOffers(services: Services, es: seq<Entry>, opts: seq<Opt>, from: Endpoint, now: int)
    requires forall e | e in es :: e.kind != 0x01
    ensures EntriesHandled(services, es, opts, from, now) == services
    decreases |es|
  {
    if es != [] {
      NoOffers(services, es[..|es| - 1], opts, from, now);
    }
  }

  /** Of several offers in one frame for the same service instance, the last one stands. */
  lemma {:induction false} LastInFrameWins(
    services: Services, es: seq<Entry>, opts: seq<Opt>, from: Endpoint, now: int, i: int)
    requires 0 <= i < |es| && es[i].kind == 0x01
    requires forall j | i < j < |es| && es[j].kind == 0x01 ::
      es[j].serviceID != es[i].serviceID || es[j].instanceID != es[i].instanceID
    ensures var after, key := EntriesHandled(services, es, opts, from, now), Key(es[i].serviceID, es[i].instanceID);
      var endpoint := ResolveIPv4Endpoint(es[i], opts);
      if es[i].ttl == 0 then key !in after
      else
        key in after &&
        after[key] == Record(es[i], if endpoint.Some? then endpoint.value else from, now + es[i].ttl * 1_000_000_000)
    decreases |es|
  {
    hide ResolveIPv4Endpoint;
    if i < |es| - 1 {
      LastInFrameWins(services, es[..|es| - 1], opts, from, now, i);
    }
  }

  // ---------------------------------------------------------------- announcing

  /** What Daemon.Offer was given; `endpoint` is None when it has no address. */
  datatype OfferConfig = OfferConfig(entry: Entry, endpoint: Option<Endpoint>, protocol: byte)

  const DEFAULT_TTL: uint32 := 3

  /** The configuration with Daemon.Offer's defaults filled in. */
  function Effective(cfg: OfferConfig): OfferConfig {
    cfg.(entry := cfg.entry.(kind := ENTRY_OFFER, ttl := if cfg.entry.ttl == 0 then DEFAULT_TTL else cfg.entry.ttl),
         protocol := if cfg.protocol == 0 then OPTION_IPV4_ENDPOINT else cfg.protocol)
  }

  /** The frame for an offer, or for its withdrawal. */
  function OfferFrame(cfg: OfferConfig, stop: bool): seq<byte> {
    var entry := if stop then cfg.entry.(ttl := 0) else cfg.entry;
    var opt := if stop then None else cfg.endpoint;
    Codec.Frame(SdFrameMessage(Payload(FLAG_REBOOT, entry, opt, cfg.protocol)))
  }

  method SendOffer(cfg: OfferConfig, stopOffer: bool) returns (frame: seq<byte>)
    ensures frame == OfferFrame(cfg, stopOffer)
  {
    hide Codec.Frame, Payload;
    var entry := cfg.entry;
    if stopOffer {
      entry := entry.(ttl := 0);
    }
    var opt: Option<Endpoint> := None;
    if !stopOffer && cfg.endpoint.Some? {
      opt := cfg.endpoint;
    }
    var empty := new byte[0];
    var out, len := EncodeSdFrame(empty, 0, FLAG_REBOOT, entry, opt, cfg.protocol);
    frame := out[..len];
  }

  /** An offer or its withdrawal goes out with the reboot flag, the entry of the configuration, and its
      endpoint option unless it is a withdrawal. */
  lemma OfferFrameIs(cfg: OfferConfig, stop: bool)
    ensures OfferFrame(cfg, stop) == Codec.Frame(Message(0xFFFF, 0x8100, 0, 0, 1, 0, 0x02, 0x00,
      if stop then Payload(0x80, cfg.entry.(ttl := 0), None, cfg.protocol)
      else Payload(0x80, cfg.entry, cfg.endpoint, cfg.protocol)))
  {
  }

  /** What a peer registers the offer under: the announced endpoint if it was sent as an IPv4 endpoint
      option, otherwise the address the frame came from. */
  function EndpointAtPeer(cfg: OfferConfig, from: Endpoint): Endpoint {
    if cfg.endpoint.Some? && cfg.protocol == 0x04
    then cfg.endpoint.value.(ip := AddressBytes(cfg.endpoint.value.ip)) else from
  }

  /** An announced offer reaches a peer's registry, whatever its option type and with or without an endpoint. */
  lemma OfferReachesRegistry(services: Services, cfg: OfferConfig, from: Endpoint, now: int)
    requires cfg.entry.kind == 0x01
    ensures FrameHandled(services, OfferFrame(cfg, false), from, now) ==
      Offered(services, Canonical(Linked(cfg.entry, cfg.endpoint)), EndpointAtPeer(cfg, from), now)
  {
    hide Payload, ParsePayload, Codec.Frame, Codec.Decode, ResolveIPv4Endpoint, Offered, OptionBytes;
    SdRoundTrip(FLAG_REBOOT, cfg.entry, cfg.endpoint, cfg.protocol);
    EndpointComesThrough(FLAG_REBOOT, cfg.entry, cfg.endpoint, cfg.protocol);
    OneOffer(services, cfg.entry, cfg.endpoint, cfg.protocol, from, now);
  }

  lemma OneOffer(
    services: Services, entry: Entry, opt: Option<Endpoint>, protocol: byte, from: Endpoint, now: int)
    requires entry.kind == 0x01
    ensures var m := Received(FLAG_REBOOT, entry, opt, protocol);
      EntriesHandled(services, m.entries, m.options, from, now) ==
        EntryHandled(services, Canonical(Linked(entry, opt)), m.options, from, now)
  {
    hide EntryHandled, OptionBytes;
    var m := Received(FLAG_REBOOT, entry, opt, protocol);
    assert m.entries == [Canonical(Linked(entry, opt))] && m.entries[..0] == [];
    assert EntriesHandled(services, m.entries[..0], m.options, from, now) == services;
  }

  /** The withdrawal sent on Close removes the service, unless other frames come in between. */
  lemma StopOfferWithdraws(services: Services, cfg: OfferConfig, from: Endpoint, now: int)
    requires cfg.entry.kind == 0x01
    ensures FrameHandled(services, OfferFrame(cfg, true), from, now) == services - {KeyOf(cfg.entry)}
  {
    hide Payload, ParsePayload, Codec.Frame, Codec.Decode, ResolveIPv4Endpoint, OptionBytes;
    var entry := cfg.entry.(ttl := 0);
    SdRoundTrip(FLAG_REBOOT, entry, None, cfg.protocol);
    OneOffer(services, entry, None, cfg.protocol, from, now);
  }

  /** When the peer looks the service up later, it finds it exactly while the time to live that fits the
      24-bit field lasts: an offer whose TTL is a multiple of 2^24 seconds withdraws the service instead. */
  lemma OfferIsFoundIff(services: Services, cfg: OfferConfig, from: Endpoint, now: int, later: int)
    requires Inv(services) && now <= later && cfg.entry.kind == 0x01
    ensures var after, key, ttl :=
        FrameHandled(services, OfferFrame(cfg, false), from, now), KeyOf(cfg.entry), cfg.entry.ttl % 0x100_0000;
      Inv(after) &&
      (key in after && Visible(after[key], cfg.entry.serviceID, later) <==>
       ttl != 0 && later <= now + ttl * 1_000_000_000)
  {
    hide FrameHandled, OfferFrame;
    OfferReachesRegistry(services, cfg, from, now);
  }

  /** The smallest such offer: 2^24 seconds removes what was registered. */
  lemma LongOfferWithdraws(services: Services, cfg: OfferConfig, from: Endpoint, now: int)
    requires cfg.entry.kind == 0x01 && cfg.entry.ttl == 0x100_0000
    ensures FrameHandled(services, OfferFrame(cfg, false), from, now) == services - {KeyOf(cfg.entry)}
  {
    hide FrameHandled, OfferFrame;
    OfferReachesRegistry(services, cfg, from, now);
  }

  /** With Daemon.Offer's defaults: an offer is announced with its own TTL or three seconds, and its endpoint
      reaches the registry when no other option type was asked for. */
  lemma EffectiveOffer(services: Services, cfg: OfferConfig, from: Endpoint, now: int)
    requires cfg.entry.ttl < 0x100_0000
    ensures var after := FrameHandled(services, OfferFrame(Effective(cfg), false), from, now);
      && KeyOf(cfg.entry) in after
      && after[KeyOf(cfg.entry)].expires == now + (if cfg.entry.ttl == 0 then 3 else cfg.entry.ttl) * 1_000_000_000
      && after[KeyOf(cfg.entry)].entry.kind == 0x01
      && (cfg.endpoint.Some? && cfg.protocol in {0x00, 0x04} ==>
            after[KeyOf(cfg.entry)].endpoint == cfg.endpoint.value.(ip := AddressBytes(cfg.endpoint.value.ip)))
  {
    hide FrameHandled, OfferFrame;
    OfferReachesRegistry(services, Effective(cfg), from, now);
  }
}
