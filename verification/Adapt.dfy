/** Conversion to and from the protocol-neutral envelope (adapt.go). */
module Adapt {
  import opened Bytes
  import opened SomeIp
  import opened Results

  datatype Envelope = Envelope(id: string, payload: seq<byte>, meta: map<string, string>)

  datatype AdaptError = MalformedMessage

  const CLIENT_ID: string := "someip.client_id"
  const SESSION_ID: string := "someip.session_id"
  const MSG_TYPE: string := "someip.msg_type"
  const MSG_TYPE_NAME: string := "someip.msg_type_name"
  const RETURN_CODE: string := "someip.return_code"
  const INTERFACE_VERSION: string := "someip.interface_version"

  // ---------------------------------------------------------------- decimal numbers

  predicate IsDigit(c: char) {
    '0' <= c <= '9'
  }

  predicate Digits(s: string) {
    s != "" && forall c | c in s :: IsDigit(c)
  }

  function FormatUint(v: nat): (s: string)
    ensures Digits(s)
  {
    var last := ['0' + (v % 10) as char];
    if v < 10 then last else FormatUint(v / 10) + last
  }

  function DigitValue(c: char): (d: nat)
    requires IsDigit(c)
    ensures d < 10 && (d == 0 <==> c == '0')
  {
    c as int - '0' as int
  }

  function Value(s: string): nat
    requires forall c | c in s :: IsDigit(c)
  {
    if s == "" then 0 else 10 * Value(s[..|s| - 1]) + DigitValue(s[|s| - 1])
  }

  /** strconv.ParseUint in base 10: digits only, and below the limit of the bit size. */
  function ParseUint(s: string, limit: nat): Option<nat> {
    if Digits(s) && Value(s) < limit then Some(Value(s)) else None
  }

  lemma {:induction false} ValueOfFormat(v: nat)
    ensures Value(FormatUint(v)) == v
  {
    var s := FormatUint(v);
    if v >= 10 {
      ValueOfFormat(v / 10);
      assert s[..|s| - 1] == FormatUint(v / 10);
    }
  }

  /** A numeral is the print of its value exactly when it has no leading zero. */
  lemma {:induction false} FormatOfValue(s: string)
    requires Digits(s)
    ensures FormatUint(Value(s)) == s <==> |s| == 1 || s[0] != '0'
    ensures |s| > 1 && s[0] != '0' ==> Value(s) >= 10
    decreases |s|
  {
    var front, last := s[..|s| - 1], s[|s| - 1];
    assert s == front + [last];
    assert Value(s) == 10 * Value(front) + DigitValue(last);
    assert ['0' + DigitValue(last) as char] == [last];
    if |s| > 1 {
      FormatOfValue(front);
      NoLeadingZero(Value(s));
      if |s| == 2 {
        assert front[..0] == "" && Value(front) == DigitValue(s[0]);
      }
    } else {
      assert front == "" && Value(s) == DigitValue(last);
    }
  }

  lemma {:induction false} NoLeadingZero(v: nat)
    ensures v > 0 ==> FormatUint(v)[0] != '0'
    ensures v < 10 ==> |FormatUint(v)| == 1
  {
    if v >= 10 {
      NoLeadingZero(v / 10);
    }
  }

  // ---------------------------------------------------------------- the two conversions

  /** `name` is the human-readable label of the message type. */
  function ToMessage(m: Message, name: string): Envelope {
    Envelope(FormatUint(m.serviceID) + "/" + FormatUint(m.methodID), m.payload,
             map[CLIENT_ID := FormatUint(m.clientID),
                 SESSION_ID := FormatUint(m.sessionID),
                 MSG_TYPE := FormatUint(m.messageType),
                 MSG_TYPE_NAME := name,
                 RETURN_CODE := FormatUint(m.returnCode),
                 INTERFACE_VERSION := FormatUint(m.interfaceVersion)])
  }

  /** strings.SplitN(s, "/", 2), where it yields two parts. */
  function SplitAtSlash(s: string): Option<(string, string)> {
    if s == "" then None
    else if s[0] == '/' then Some(("", s[1..]))
    else
      match SplitAtSlash(s[1..])
      case None => None
      case Some((a, b)) => Some(([s[0]] + a, b))
  }

  /** An absent, empty or malformed value leaves the field at zero. */
  function MetaUint(meta: map<string, string>, key: string, limit: nat): (v: nat)
    requires limit > 0
    ensures v < limit
  {
    if key in meta && ParseUint(meta[key], limit).Some? then ParseUint(meta[key], limit).value else 0
  }

  function FromMessage(e: Envelope): Result<Message, AdaptError> {
    match SplitAtSlash(e.id)
    case None => Failure(MalformedMessage)
    case Some((service, method_)) =>
      var svcID := ParseUint(service, 0x1_0000);
      var methodID := ParseUint(method_, 0x1_0000);
      if svcID.None? || methodID.None? then Failure(MalformedMessage)
      else
        Success(Message(svcID.value, methodID.value,
                        MetaUint(e.meta, CLIENT_ID, 0x1_0000), MetaUint(e.meta, SESSION_ID, 0x1_0000),
                        PROTOCOL_VERSION, MetaUint(e.meta, INTERFACE_VERSION, 0x100),
                        MetaUint(e.meta, MSG_TYPE, 0x100), MetaUint(e.meta, RETURN_CODE, 0x100),
                        e.payload))
  }

  /** Numbers are printed and read in base ten, without leading zeros. */
  lemma DecimalDigits(v: nat, d: nat)
    requires d < 10
    ensures FormatUint(10 * v + d) == (if v == 0 then "" else FormatUint(v)) + ["0123456789"[d]]
    ensures Value(FormatUint(10 * v + d)) == 10 * v + d
  {
    assert (10 * v + d) / 10 == v && (10 * v + d) % 10 == d;
    assert "0123456789"[d] == '0' + d as char;
    ValueOfFormat(10 * v + d);
  }

  /** The envelope of a message, key by key. */
  lemma EnvelopeKeys(m: Message, name: string)
    ensures var e := ToMessage(m, name);
      && e.id == FormatUint(m.serviceID) + "/" + FormatUint(m.methodID) && e.payload == m.payload
      && e.meta.Keys == {"someip.client_id", "someip.session_id", "someip.msg_type", "someip.msg_type_name",
                         "someip.return_code", "someip.interface_version"}
      && e.meta["someip.client_id"] == FormatUint(m.clientID)
      && e.meta["someip.session_id"] == FormatUint(m.sessionID)
      && e.meta["someip.msg_type"] == FormatUint(m.messageType)
      && e.meta["someip.msg_type_name"] == name
      && e.meta["someip.return_code"] == FormatUint(m.returnCode)
      && e.meta["someip.interface_version"] == FormatUint(m.interfaceVersion)
  {
    hide FormatUint;
    assert |CLIENT_ID| == 16 && |SESSION_ID| == 17 && |MSG_TYPE| == 15 && |MSG_TYPE_NAME| == 20;
    assert |RETURN_CODE| == 18 && |INTERFACE_VERSION| == 24;
  }

  /** v is the number the envelope gives for a key, or zero when it gives none below the limit. */
  ghost predicate Gives(e: Envelope, key: string, limit: nat, v: nat) {
    if key in e.meta && Digits(e.meta[key]) && Value(e.meta[key]) < limit then v == Value(e.meta[key]) else v == 0
  }

  /** What an accepted envelope is read as: missing or malformed metadata leaves a field at zero. */
  lemma FieldsOfEnvelope(e: Envelope)
    requires FromMessage(e).Success?
    ensures var m := FromMessage(e).value;
      && m.payload == e.payload && m.protocolVersion == 1
      && Gives(e, "someip.client_id", 65536, m.clientID) && Gives(e, "someip.session_id", 65536, m.sessionID)
      && Gives(e, "someip.msg_type", 256, m.messageType) && Gives(e, "someip.return_code", 256, m.returnCode)
      && Gives(e, "someip.interface_version", 256, m.interfaceVersion)
      && exists a, b :: e.id == a + "/" + b && Digits(a) && Digits(b) &&
           m.serviceID == Value(a) && m.methodID == Value(b)
  {
    hide Value;
    var parts := SplitAtSlash(e.id).value;
    SplitIff(e.id, parts.0, parts.1);
  }

  // ---------------------------------------------------------------- properties

  /** The split is at the first slash, wherever that is. */
  lemma {:induction false} SplitIff(s: string, a: string, b: string)
    ensures SplitAtSlash(s) == Some((a, b)) <==> s == a + "/" + b && '/' !in a
  {
    if s == a + "/" + b && '/' !in a {
      if a == "" {
        assert s == "/" + b;
      } else {
        assert s[1..] == a[1..] + "/" + b;
        SplitIff(s[1..], a[1..], b);
        assert [a[0]] + a[1..] == a;
      }
    }
    if SplitAtSlash(s) == Some((a, b)) {
      if s[0] == '/' {
        assert s == "/" + s[1..];
      } else {
        SplitIff(s[1..], a[1..], b);
        assert s == [s[0]] + s[1..] == [s[0]] + (a[1..] + "/" + b);
        assert a == [s[0]] + a[1..];
      }
    }
  }

  /** The adapter loses nothing but the protocol version, which it makes canonical. */
  lemma RoundTrip(m: Message, name: string)
    ensures FromMessage(ToMessage(m, name)) == Success(m.(protocolVersion := PROTOCOL_VERSION))
  {
    hide FormatUint, Value, SplitAtSlash;
    ValueOfFormat(m.serviceID);
    ValueOfFormat(m.methodID);
    ValueOfFormat(m.clientID);
    ValueOfFormat(m.sessionID);
    ValueOfFormat(m.messageType);
    ValueOfFormat(m.returnCode);
    ValueOfFormat(m.interfaceVersion);
    SplitIff(ToMessage(m, name).id, FormatUint(m.serviceID), FormatUint(m.methodID));
    assert |CLIENT_ID| == 16 && |SESSION_ID| == 17 && |MSG_TYPE| == 15 && |MSG_TYPE_NAME| == 20;
    assert |RETURN_CODE| == 18 && |INTERFACE_VERSION| == 24;
  }

  /** An envelope is accepted exactly when its ID is two decimal 16-bit numbers around a slash; the
      metadata never causes a rejection. */
  lemma AcceptedIff(e: Envelope)
    ensures FromMessage(e).Success? <==>
      exists a, b :: e.id == a + "/" + b && Digits(a) && Digits(b) && Value(a) < 0x1_0000 && Value(b) < 0x1_0000
  {
    hide Value;
    if FromMessage(e).Success? {
      var parts := SplitAtSlash(e.id).value;
      SplitIff(e.id, parts.0, parts.1);
    }
    if a, b :| e.id == a + "/" + b && Digits(a) && Digits(b) && Value(a) < 0x1_0000 && Value(b) < 0x1_0000 {
      SplitIff(e.id, a, b);
    }
  }

  predicate Plain(s: string) {
    |s| == 1 || (s != "" && s[0] != '0')
  }

  /** Converting an accepted envelope back restores its ID exactly when neither number has a leading zero. */
  lemma IdRestoredIff(e: Envelope, name: string)
    requires FromMessage(e).Success?
    ensures var parts := SplitAtSlash(e.id).value;
      ToMessage(FromMessage(e).value, name).id == e.id <==> Plain(parts.0) && Plain(parts.1)
  {
    hide FormatUint, Value, SplitAtSlash;
    var (a, b) := SplitAtSlash(e.id).value;
    SplitIff(e.id, a, b);
    FormatOfValue(a);
    FormatOfValue(b);
    var a', b' := FormatUint(Value(a)), FormatUint(Value(b));
    SplitIff(e.id, a', b');
  }
}
