/**
 * The two operations of the authentication centre, `login` and `checkToken`.
 *
 * Everything the source obtains from outside is an input: the outcome of schema
 * validation (`None` when the message is valid, otherwise the error object), the
 * registry's replies to the lookup and to the update, the clock reading `now`, the id
 * minted by the random generator, and `errorInfo`, the description table behind
 * `logger.getErrorInfo`. Each operation is given twice: as a function from those
 * inputs to the `Trace` it produces, and as a method that builds the envelope and the
 * request log step by step in the order the source does.
 */
module AuthenticationCenter {
  import opened Wrappers
  import opened Messages
  import opened Tokens

  const OneHour := 1000 * 60 * 60
  const OneDay := OneHour * 24
  /** Lifetime of a token, in milliseconds (30 days). */
  const TimeOut := OneDay * 30
  /** `TIME_OUT * (2/3)`; in double arithmetic that product is exactly 1728000000. */
  const UpdateLimit := 1728000000
  const UserTypeId := "060A08000000"

  const InvalidCredentials := 205001
  const InvalidToken := 207010

  /** The user lookup login sends. */
  function LookupByPhone(userName: string): (r: Request) {
    GetDevice(ByTypeAndPhone(UserTypeId, userName))
  }

  /** The record lookup checkToken sends. */
  function LookupByUuid(uuid: string): (r: Request) {
    GetDevice(ByUuid(uuid))
  }

  /** The update that stores a freshly minted token on a record. */
  function StoreToken(uuid: string, authToken: AuthToken): (r: Request) {
    DeviceUpdate(SetAuthToken(uuid, authToken))
  }

  /** The update that slides a token's timestamp forward. */
  function TouchToken(uuid: string, now: int): (r: Request) {
    DeviceUpdate(SetTimestamp(uuid, now))
  }

  /** `deviceInfo.extra && deviceInfo.extra.password === password`. */
  predicate PasswordMatches(record: DeviceRecord, password: string) {
    record.extra.Some? && record.extra.value.password == Some(password)
  }

  /** `timestamp + TIME_OUT < now`: a token is still valid at exactly `timestamp + TIME_OUT`. */
  predicate Expired(timestamp: int, now: int) {
    timestamp + TimeOut < now
  }

  /** `timestamp + UPDATE_LIMIT > now`, the refresh test as written: true for tokens
      YOUNGER than `UpdateLimit`, so a token is refreshed in the first two thirds of its
      life and never in the last third. */
  predicate DueForRefresh(timestamp: int, now: int) {
    timestamp + UpdateLimit > now
  }

  /** None of the three rejection tests of checkToken holds for the stored marker. The
      token test is `!==` on two possibly undefined values, so a marker without a token
      matches a token without a second part. */
  predicate Accepts(stored: Option<AuthToken>, id: Option<string>, now: int) {
    stored.Some? && stored.value.token == id && !Expired(stored.value.timestamp, now)
  }

  /** The lookup succeeded and returned at least one record. */
  predicate Found(lookup: Response) {
    lookup.retCode == SuccessCode && lookup.data != []
  }

  function LoginSpec(validation: Option<Envelope>, userName: string, password: string,
                     lookup: Response, mintedId: string, now: int, update: Response,
                     errorInfo: int -> string): (t: Trace)
    // peerCallback runs exactly once, unless the handler throws
    ensures |t.replies| == if t.crashed then 0 else 1
    // a validation error is returned as it is and nothing is sent to the registry
    ensures validation.Some? ==> t == Trace([], [validation.value], false)
    // otherwise the user lookup is the first request, and at most one update follows
    ensures validation.None? ==> 1 <= |t.requests| <= 2 && t.requests[0] == LookupByPhone(userName)
    ensures forall i :: 0 <= i < |t.requests| ==> (IsUpdate(t.requests[i]) <==> i == 1)
    // a failed lookup is passed through with data {} and no update
    ensures validation.None? && lookup.retCode != SuccessCode ==>
      t == Trace([LookupByPhone(userName)], [Failed(lookup)], false)
    // `response.data[0].extra` throws exactly when a successful lookup found nothing
    ensures t.crashed <==> validation.None? && lookup.retCode == SuccessCode && lookup.data == []
    // no extra, or a different password: 205001, data {}, no update
    ensures validation.None? && Found(lookup) && !PasswordMatches(lookup.data[0], password) ==>
      t == Trace([LookupByPhone(userName)], [Envelope(InvalidCredentials, errorInfo(InvalidCredentials), Empty)], false)
    // an update is issued exactly when the password matches, and it stores the minted id at `now`
    ensures |t.requests| == 2 <==> validation.None? && Found(lookup) && PasswordMatches(lookup.data[0], password)
    ensures |t.requests| == 2 ==> t.requests[1] == StoreToken(lookup.data[0].uuid, AuthToken(Some(mintedId), now))
    // after the update: the token when it succeeded, its code and description (and no token) when it failed
    ensures |t.requests| == 2 && update.retCode == SuccessCode ==>
      t.replies == [SuccessEnvelope.(data := TokenData(Compose(lookup.data[0].uuid, mintedId)))]
    ensures |t.requests| == 2 && update.retCode != SuccessCode ==> t.replies == [Failed(update)]
    // login itself never produces a token without a successful update
    ensures validation.None? && (exists e :: e in t.replies && e.data.TokenData?) ==>
      |t.requests| == 2 && update.retCode == SuccessCode
  {
    if validation.Some? then Trace([], [validation.value], false)
    else
      var find := LookupByPhone(userName);
      if lookup.retCode != SuccessCode then Trace([find], [Failed(lookup)], false)
      else if lookup.data == [] then Trace([find], [], true)
      else
        var record := lookup.data[0];
        if PasswordMatches(record, password) then
          var store := StoreToken(record.uuid, AuthToken(Some(mintedId), now));
          var reply := if update.retCode != SuccessCode then Failed(update)
                       else SuccessEnvelope.(data := TokenData(Compose(record.uuid, mintedId)));
          Trace([find, store], [reply], false)
        else
          Trace([find], [Envelope(InvalidCredentials, errorInfo(InvalidCredentials), Empty)], false)
  }

  function CheckTokenSpec(validation: Option<Envelope>, token: string, lookup: Response,
                          now: int, errorInfo: int -> string): (t: Trace)
    // peerCallback runs exactly once, unless the handler throws
    ensures |t.replies| == if t.crashed then 0 else 1
    // a validation error is returned as it is and nothing is sent to the registry
    ensures validation.Some? ==> t == Trace([], [validation.value], false)
    // otherwise the lookup by the first "_"-part is always sent, even for a token without "_"
    ensures validation.None? ==> 1 <= |t.requests| <= 2 && t.requests[0] == LookupByUuid(UuidPart(token))
    ensures forall i :: 0 <= i < |t.requests| ==> (IsUpdate(t.requests[i]) <==> i == 1)
    // a failed lookup is passed through with data {} and no update
    ensures validation.None? && lookup.retCode != SuccessCode ==>
      t == Trace([LookupByUuid(UuidPart(token))], [Failed(lookup)], false)
    // the handler throws when a successful lookup found nothing or a record without extra
    ensures t.crashed <==> validation.None? && lookup.retCode == SuccessCode &&
                           (lookup.data == [] || lookup.data[0].extra.None?)
    // no marker, another id, or expired: 207010, data {}, no update
    ensures validation.None? && Found(lookup) && lookup.data[0].extra.Some? &&
            !Accepts(lookup.data[0].extra.value.authToken, IdPart(token), now) ==>
      t == Trace([LookupByUuid(UuidPart(token))], [Envelope(InvalidToken, errorInfo(InvalidToken), Empty)], false)
    // an accepted token gives the success envelope, whether or not it is refreshed
    ensures validation.None? && Found(lookup) && lookup.data[0].extra.Some? &&
            Accepts(lookup.data[0].extra.value.authToken, IdPart(token), now) ==>
      t.replies == [SuccessEnvelope]
    // the refresh update is sent exactly for accepted tokens that pass the refresh test
    ensures |t.requests| == 2 <==>
      validation.None? && Found(lookup) && lookup.data[0].extra.Some? &&
      Accepts(lookup.data[0].extra.value.authToken, IdPart(token), now) &&
      DueForRefresh(lookup.data[0].extra.value.authToken.value.timestamp, now)
    ensures |t.requests| == 2 ==> t.requests[1] == TouchToken(lookup.data[0].uuid, now)
  {
    if validation.Some? then Trace([], [validation.value], false)
    else
      var find := LookupByUuid(UuidPart(token));
      if lookup.retCode != SuccessCode then Trace([find], [Failed(lookup)], false)
      else if lookup.data == [] || lookup.data[0].extra.None? then Trace([find], [], true)
      else
        var record := lookup.data[0];
        var stored := record.extra.value.authToken;
        if !Accepts(stored, IdPart(token), now) then
          Trace([find], [Envelope(InvalidToken, errorInfo(InvalidToken), Empty)], false)
        else if DueForRefresh(stored.value.timestamp, now) then
          Trace([find, TouchToken(record.uuid, now)], [SuccessEnvelope], false)
        else
          Trace([find], [SuccessEnvelope], false)
  }

  /** login, step by step: `responseMessage` starts as the success envelope and has its
      fields overwritten branch by branch; each request and each `peerCallback` call is
      appended to a log. */
  method Login(validation: Option<Envelope>, userName: string, password: string,
               lookup: Response, mintedId: string, now: int, update: Response,
               errorInfo: int -> string) returns (t: Trace)
    ensures t == LoginSpec(validation, userName, password, lookup, mintedId, now, update, errorInfo)
  {
    var requests: seq<Request> := [];
    var replies: seq<Envelope> := [];
    var crashed := false;
    var responseMessage := SuccessEnvelope;
    if validation.Some? {
      responseMessage := validation.value;
      replies := replies + [responseMessage];
    } else {
      requests := requests + [LookupByPhone(userName)];
      if lookup.retCode != SuccessCode {
        responseMessage := responseMessage.(retCode := lookup.retCode);
        responseMessage := responseMessage.(description := lookup.description);
        replies := replies + [responseMessage];
      } else if |lookup.data| == 0 {
        // `response.data[0]` is undefined and reading `extra` from it throws
        crashed := true;
      } else {
        var deviceInfo := lookup.data[0];
        if PasswordMatches(deviceInfo, password) {
          var authToken := mintedId;
          requests := requests + [StoreToken(deviceInfo.uuid, AuthToken(Some(authToken), now))];
          if update.retCode != SuccessCode {
            responseMessage := responseMessage.(retCode := update.retCode);
            responseMessage := responseMessage.(description := update.description);
          } else {
            responseMessage := responseMessage.(data := TokenData(Compose(deviceInfo.uuid, authToken)));
          }
          replies := replies + [responseMessage];
        } else {
          responseMessage := responseMessage.(retCode := InvalidCredentials);
          responseMessage := responseMessage.(description := errorInfo(responseMessage.retCode));
          replies := replies + [responseMessage];
        }
      }
    }
    t := Trace(requests, replies, crashed);
  }

  /** checkToken, step by step. The envelope goes to `peerCallback` before the refresh
      update's reply is handled, so a failed refresh overwrites `responseMessage` only
      after it has been sent: the result does not depend on `refreshReply` at all. */
  method CheckToken(validation: Option<Envelope>, token: string, lookup: Response,
                    now: int, refreshReply: Response, errorInfo: int -> string) returns (t: Trace)
    ensures t == CheckTokenSpec(validation, token, lookup, now, errorInfo)
  {
    var requests: seq<Request> := [];
    var replies: seq<Envelope> := [];
    var crashed := false;
    var responseMessage := SuccessEnvelope;
    if validation.Some? {
      responseMessage := validation.value;
      replies := replies + [responseMessage];
    } else {
      var deviceUuid := UuidPart(token);
      var tokenId := IdPart(token);
      requests := requests + [LookupByUuid(deviceUuid)];
      if lookup.retCode != SuccessCode {
        responseMessage := responseMessage.(retCode := lookup.retCode);
        responseMessage := responseMessage.(description := lookup.description);
        replies := replies + [responseMessage];
      } else if |lookup.data| == 0 || lookup.data[0].extra.None? {
        // `response.data[0]` is undefined, or its `extra` is, and reading through it throws
        crashed := true;
      } else {
        var deviceInfo := lookup.data[0];
        var curTime := now;
        var stored := deviceInfo.extra.value.authToken;
        var refreshSent := false;
        if !Accepts(stored, tokenId, curTime) {
          responseMessage := responseMessage.(retCode := InvalidToken);
          responseMessage := responseMessage.(description := errorInfo(responseMessage.retCode));
        } else if DueForRefresh(stored.value.timestamp, curTime) {
          requests := requests + [TouchToken(deviceInfo.uuid, curTime)];
          refreshSent := true;
        }
        replies := replies + [responseMessage];
        // the refresh reply arrives after peerCallback has run
        if refreshSent && refreshReply.retCode != SuccessCode {
          responseMessage := responseMessage.(retCode := refreshReply.retCode);
          responseMessage := responseMessage.(description := refreshReply.description);
        }
      }
    }
    t := Trace(requests, replies, crashed);
  }
}
