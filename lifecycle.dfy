/**
 * Properties that relate several calls: a token handed out by login and then checked,
 * the edges of the validity and refresh windows, and tokens that are not of the form
 * `uuid_id`.
 */
module Lifecycle {
  import opened Wrappers
  import opened Messages
  import opened Tokens
  import opened AuthenticationCenter

  /** The record the registry returns for a token check once login's update is stored. */
  predicate HoldsMarker(lookup: Response, uuid: string, marker: AuthToken) {
    Found(lookup) && lookup.data[0].uuid == uuid && lookup.data[0].extra.Some? &&
    lookup.data[0].extra.value.authToken == Some(marker)
  }

  /** A token from a successful login passes checkToken for the whole of its lifetime,
      up to and including `TimeOut` after it was minted, provided neither the record's
      uuid nor the minted id contains the separator. The refresh test as written sends an
      update for checks in the first `UpdateLimit` milliseconds and none afterwards: a
      check right after login writes to the registry. */
  lemma LoginTokenAccepted(userName: string, password: string, lookup: Response,
                           mintedId: string, now: int, update: Response,
                           errorInfo: int -> string, recheck: Response, later: int)
    requires Found(lookup) && PasswordMatches(lookup.data[0], password)
    requires update.retCode == SuccessCode
    requires Separator !in lookup.data[0].uuid && Separator !in mintedId
    requires HoldsMarker(recheck, lookup.data[0].uuid, AuthToken(Some(mintedId), now))
    requires now <= later <= now + TimeOut
    ensures var t := LoginSpec(None, userName, password, lookup, mintedId, now, update, errorInfo);
            t.replies[0].data.TokenData? &&
            var c := CheckTokenSpec(None, t.replies[0].data.token, recheck, later, errorInfo);
            c.replies == [SuccessEnvelope] &&
            c.requests[0] == LookupByUuid(lookup.data[0].uuid) &&
            (|c.requests| == 2 <==> later < now + UpdateLimit)
  {
    ComposeParts(lookup.data[0].uuid, mintedId);
  }

  /** A token in the last third of its life is accepted but never refreshed. */
  lemma AgingTokenNotRefreshed(token: string, lookup: Response, timestamp: int, now: int,
                               errorInfo: int -> string)
    requires Found(lookup) && lookup.data[0].extra.Some?
    requires lookup.data[0].extra.value.authToken == Some(AuthToken(IdPart(token), timestamp))
    requires timestamp + UpdateLimit < now <= timestamp + TimeOut
    ensures CheckTokenSpec(None, token, lookup, now, errorInfo) ==
            Trace([LookupByUuid(UuidPart(token))], [SuccessEnvelope], false)
  {
  }

  /** The expiry boundary: a matching marker is accepted at `timestamp + TimeOut` and
      rejected with 207010 one millisecond later. */
  lemma ExpiryBoundary(token: string, lookup: Response, timestamp: int, errorInfo: int -> string)
    requires Found(lookup) && lookup.data[0].extra.Some?
    requires lookup.data[0].extra.value.authToken == Some(AuthToken(IdPart(token), timestamp))
    ensures CheckTokenSpec(None, token, lookup, timestamp + TimeOut, errorInfo).replies == [SuccessEnvelope]
    ensures CheckTokenSpec(None, token, lookup, timestamp + TimeOut + 1, errorInfo) ==
            Trace([LookupByUuid(UuidPart(token))], [Envelope(InvalidToken, errorInfo(InvalidToken), Empty)], false)
  {
  }

  /** The record found holds a marker whose `token` is undefined. */
  predicate TokenlessMarker(lookup: Response) {
    Found(lookup) && lookup.data[0].extra.Some? && lookup.data[0].extra.value.authToken.Some? &&
    lookup.data[0].extra.value.authToken.value.token.None?
  }

  /** A token without the separator is not rejected before the registry is asked: the
      whole string is looked up as a uuid. Unless the record holds a marker without a
      token, it is then never accepted and never refreshed. */
  lemma TokenWithoutSeparator(token: string, lookup: Response, now: int, errorInfo: int -> string)
    requires Separator !in token
    ensures var t := CheckTokenSpec(None, token, lookup, now, errorInfo);
            t.requests[0] == LookupByUuid(token) &&
            (!TokenlessMarker(lookup) ==>
               t.requests == [LookupByUuid(token)] &&
               forall e :: e in t.replies ==> e.retCode != SuccessCode)
  {
    SplitNoSeparator(token);
  }

  /** The other side: against a marker without a token, a token without the separator
      (`undefined !== undefined` is false) is accepted until the marker expires. */
  lemma TokenlessMarkerAcceptsBareToken(token: string, lookup: Response, now: int,
                                        errorInfo: int -> string)
    requires Separator !in token
    requires TokenlessMarker(lookup)
    requires !Expired(lookup.data[0].extra.value.authToken.value.timestamp, now)
    ensures CheckTokenSpec(None, token, lookup, now, errorInfo).replies == [SuccessEnvelope]
  {
  }

  /** A token with more than one separator is treated exactly like its first two parts. */
  lemma TrailingSegmentsDoNotMatter(uuid: string, id: string, rest: string, lookup: Response,
                                    now: int, errorInfo: int -> string)
    requires Separator !in uuid && Separator !in id
    ensures CheckTokenSpec(None, Compose(uuid, id) + [Separator] + rest, lookup, now, errorInfo) ==
            CheckTokenSpec(None, Compose(uuid, id), lookup, now, errorInfo)
  {
    ComposeParts(uuid, id);
    TrailingSegmentsIgnored(uuid, id, rest);
  }
}
