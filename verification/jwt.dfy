/**
 * Token issuing and checking for the accounts app. A token pair is two
 * signed payloads for the same user: an access token living one hour and a
 * refresh token living two. Checking a token decodes it and accepts it only
 * when its `type` claim is the expected one.
 *
 * Signing and decoding (HS256 with the server's secret key) are not
 * modelled: `encode` and `decode` are parameters. Decoding either yields
 * the payload, or reports an expired signature, or reports an otherwise
 * invalid token. Times are whole seconds since the epoch, the unit the
 * `exp` claim is written in.
 */
module Jwt {

  /** A claim value: the payloads hold integers (ids, times) and strings. */
  datatype Claim = IntClaim(n: int) | StrClaim(s: string)

  /** A decoded payload: claim name to value. */
  type Claims = map<string, Claim>

  /** The account a token is issued for, as far as tokens see it: its id. */
  datatype User = User(id: int)

  /** What the decoder reports for a token. */
  datatype Decoded = Decoded(claims: Claims) | ExpiredSignature | InvalidToken

  /** What a check of a token yields: its payload, `None`, or an escaping `KeyError`. */
  datatype Verification = Payload(claims: Claims) | NoPayload | MissingTypeClaim

  datatype TokenPair = TokenPair(access: string, refresh: string)

  const Hour: int := 3600
  const AccessLifetime: int := 1 * Hour
  const RefreshLifetime: int := 2 * Hour

  const UserIdClaim := "user_id"
  const ExpClaim := "exp"
  const TypeClaim := "type"
  const AccessType := "access"
  const RefreshType := "refresh"

  /** The payload signed for `user` at time `now`. */
  function PayloadFor(user: User, now: int, lifetime: int, tokenType: string): Claims
  {
    map[UserIdClaim := IntClaim(user.id), ExpClaim := IntClaim(now + lifetime), TypeClaim := StrClaim(tokenType)]
  }

  /**
   * The two payloads `create_jwt` signs. The clock is read once for each,
   * so the two readings are separate inputs. Both carry the user's id and
   * the same three claims; one is typed `access` and expires an hour after
   * its reading, the other is typed `refresh` and expires two hours after
   * its reading, so the refresh token outlives the access token whenever
   * the clock did not go back by an hour or more between the two readings.
   */
  function CreatePayloads(user: User, accessNow: int, refreshNow: int): (p: (Claims, Claims))
    ensures p.0.Keys == p.1.Keys == {UserIdClaim, ExpClaim, TypeClaim}
    ensures p.0[UserIdClaim] == p.1[UserIdClaim] == IntClaim(user.id)
    ensures p.0[TypeClaim] == StrClaim(AccessType) && p.1[TypeClaim] == StrClaim(RefreshType)
    ensures p.0[ExpClaim] == IntClaim(accessNow + 3600) && p.1[ExpClaim] == IntClaim(refreshNow + 7200)
    ensures refreshNow > accessNow - 3600 ==> p.1[ExpClaim].n > p.0[ExpClaim].n
  {
    (PayloadFor(user, accessNow, AccessLifetime, AccessType),
     PayloadFor(user, refreshNow, RefreshLifetime, RefreshType))
  }

  /** `create_jwt(user)`: the access token and the refresh token, in that order. */
  function CreateJwt(user: User, accessNow: int, refreshNow: int, encode: Claims -> string): (r: TokenPair)
    ensures var p := CreatePayloads(user, accessNow, refreshNow);
            r.access == encode(p.0) && r.refresh == encode(p.1)
  {
    var p := CreatePayloads(user, accessNow, refreshNow);
    TokenPair(encode(p.0), encode(p.1))
  }

  /**
   * `verify_jwt(token, expected_type)`, checking an access token unless told
   * otherwise. An expired or invalid token, or a payload of another type,
   * gives no payload; an accepted payload is handed back unchanged. A
   * payload without a `type` claim makes the lookup raise `KeyError`, which
   * the function does not catch.
   */
  function VerifyJwt(token: string, decode: string -> Decoded, expectedType: string := AccessType): (r: Verification)
    ensures !decode(token).Decoded? ==> r == NoPayload
    ensures r.Payload? <==>
              decode(token).Decoded? && TypeClaim in decode(token).claims &&
              decode(token).claims[TypeClaim] == StrClaim(expectedType)
    ensures r.Payload? ==> r.claims == decode(token).claims
    ensures r.MissingTypeClaim? <==> decode(token).Decoded? && TypeClaim !in decode(token).claims
  {
    match decode(token)
    case ExpiredSignature => NoPayload
    case InvalidToken => NoPayload
    case Decoded(payload) =>
      if TypeClaim !in payload then MissingTypeClaim
      else if payload[TypeClaim] != StrClaim(expectedType) then NoPayload
      else Payload(payload)
  }

  /** The decoder gives back what the encoder signed, for these payloads. */
  predicate DecodesBack(encode: Claims -> string, decode: string -> Decoded, p: Claims)
  {
    decode(encode(p)) == Decoded(p)
  }

  /**
   * A freshly issued pair checks out by type: the access token is accepted
   * as an access token only, the refresh token as a refresh token only.
   */
  lemma IssuedTokensCheckByType(user: User, accessNow: int, refreshNow: int,
                                encode: Claims -> string, decode: string -> Decoded)
    requires var p := CreatePayloads(user, accessNow, refreshNow);
             DecodesBack(encode, decode, p.0) && DecodesBack(encode, decode, p.1)
    ensures var p := CreatePayloads(user, accessNow, refreshNow);
            var tokens := CreateJwt(user, accessNow, refreshNow, encode);
            && VerifyJwt(tokens.access, decode) == Payload(p.0)
            && VerifyJwt(tokens.access, decode, RefreshType) == NoPayload
            && VerifyJwt(tokens.refresh, decode, RefreshType) == Payload(p.1)
            && VerifyJwt(tokens.refresh, decode) == NoPayload
  {
  }
}
