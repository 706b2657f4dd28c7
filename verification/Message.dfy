/** The decoded SOME/IP message (someip.go). */
module SomeIp {
  import opened Bytes

  const PROTOCOL_VERSION: byte := 0x01

  const MSG_REQUEST: byte := 0x00
  const MSG_REQUEST_NO_RETURN: byte := 0x01
  const MSG_NOTIFICATION: byte := 0x02
  const MSG_RESPONSE: byte := 0x80
  const MSG_ERROR: byte := 0x81

  const RET_OK: byte := 0x00
  const RET_NOT_OK: byte := 0x01
  const RET_UNKNOWN_METHOD: byte := 0x03
  const RET_WRONG_INTERFACE_VERSION: byte := 0x08

  datatype Message = Message(
    serviceID: uint16,
    methodID: uint16,
    clientID: uint16,
    sessionID: uint16,
    protocolVersion: byte,
    interfaceVersion: byte,
    messageType: byte,
    returnCode: byte,
    payload: seq<byte>)
}

/** Outcomes that the Go code returns as a (value, error) pair or as a (value, ok) pair. */
module Results {
  datatype Result<+T, +E> = Success(value: T) | Failure(error: E)
  datatype Option<+T> = None | Some(value: T)
}
