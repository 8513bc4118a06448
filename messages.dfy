/**
 * The values exchanged by the authentication centre: the records the device registry
 * stores, the requests sent to it and its replies, and the envelope sent back to the
 * peer that asked for a login or a token check.
 */
module Messages {
  import opened Wrappers

  /** `extra.authToken` of a user record: the active session marker. Login always writes
      a token; `None` stands for a marker the registry holds without one (`undefined`). */
  datatype AuthToken = AuthToken(token: Option<string>, timestamp: int)

  /** `extra` of a user record; a field the registry did not store is `None`. */
  datatype Extra = Extra(password: Option<string>, authToken: Option<AuthToken>)

  /** A user record as the registry returns it; `extra` may be missing altogether. */
  datatype DeviceRecord = DeviceRecord(uuid: string, extra: Option<Extra>)

  /** A registry reply: `{retCode, description, data}` with `data` a list of records. */
  datatype Response = Response(retCode: int, description: string, data: seq<DeviceRecord>)

  /** The `data` member of an envelope: `{}` or `{token: ...}`. */
  datatype Data = Empty | TokenData(token: string)

  /** The envelope `{retCode, description, data}` handed to `peerCallback`. */
  datatype Envelope = Envelope(retCode: int, description: string, data: Data)

  /** The `parameters` of a registry request, one constructor per shape the source sends. */
  datatype Parameters =
    | ByTypeAndPhone(typeId: string, phoneNumber: string)   // getDevice {"type.id", "extra.phoneNumber"}
    | ByUuid(uuid: string)                                   // getDevice {"uuid"}
    | SetAuthToken(uuid: string, authToken: AuthToken)       // deviceUpdate {"uuid", "extra.authToken"}
    | SetTimestamp(uuid: string, timestamp: int)             // deviceUpdate {"uuid", "extra.authToken.timestamp"}

  /** The `payload` of a registry request. */
  datatype Request = Request(cmdName: string, cmdCode: string, parameters: Parameters)

  /** What one call of an operation does: the registry requests it issues, in order, the
      envelopes it passes to `peerCallback`, and whether the handler throws. */
  datatype Trace = Trace(requests: seq<Request>, replies: seq<Envelope>, crashed: bool)

  const SuccessCode := 200

  /** The envelope both operations start from. */
  const SuccessEnvelope := Envelope(SuccessCode, "Success.", Empty)

  function GetDevice(parameters: Parameters): (r: Request)
    requires parameters.ByTypeAndPhone? || parameters.ByUuid?
  {
    Request("getDevice", "0003", parameters)
  }

  function DeviceUpdate(parameters: Parameters): (r: Request)
    requires parameters.SetAuthToken? || parameters.SetTimestamp?
  {
    Request("deviceUpdate", "0004", parameters)
  }

  predicate IsUpdate(r: Request) {
    r.cmdName == "deviceUpdate"
  }

  /** The success envelope with the code and description of a failed registry reply
      written over it; `data` stays `{}`. */
  function Failed(response: Response): (e: Envelope)
    ensures e.retCode == response.retCode && e.description == response.description
    ensures e.data == Empty
  {
    SuccessEnvelope.(retCode := response.retCode, description := response.description)
  }
}
