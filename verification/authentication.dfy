/**
 * `UserJWTAuthentification.authenticate`: the request authenticator of the
 * API. It reads one header, expects it to start with `Bearer`, checks the
 * token inside as an access token and loads the user the token names.
 * A request without the header is anonymous; every other failure is an
 * authentication failure.
 *
 * Request headers are given as a map from header name to value, looked up
 * by exact name. Users are the stored accounts; ids are primary keys.
 */
module Authentication {

  import opened Wrappers
  import opened PyText
  import opened Jwt

  /** The header name the authenticator reads, spelled as in the code. */
  const HeaderName := "Autorization"

  const Keyword := "Bearer"

  /**
   * `None` (no opinion: the request stays anonymous), a raised
   * `AuthenticationFailed`, the `(user, None)` pair, or an uncaught
   * `KeyError` from a payload lacking a claim.
   */
  datatype Outcome = Anonymous | Failed | Authenticated(user: User) | Raised

  /** `User.objects.get(id=id)`: the stored account with that id, if any. */
  function LookupUser(users: seq<User>, id: int): (r: Option<User>)
    ensures r.Some? ==> r.value in users && r.value.id == id
    ensures r.None? ==> forall u :: u in users ==> u.id != id
  {
    if |users| == 0 then None
    else if users[0].id == id then Some(users[0])
    else LookupUser(users[1..], id)
  }

  /**
   * `header.replace("Bearer", "").strip()`: the token is no longer than the
   * header, holds only characters of the header, and has no whitespace at
   * either end.
   */
  function ExtractToken(header: string): (token: string)
    ensures |token| <= |header|
    ensures forall c :: c in token ==> c in header
    ensures token == [] || (!IsSpace(token[0]) && !IsSpace(token[|token| - 1]))
  {
    Strip(RemoveAll(header, Keyword))
  }

  /** Python truthiness of the header value: present and non-empty. */
  predicate HasHeader(headers: map<string, string>)
  {
    HeaderName in headers && headers[HeaderName] != ""
  }

  /**
   * The request: no header leaves it anonymous; a header not starting with
   * `Bearer` fails; otherwise the outcome is that of the token the header
   * carries once every `Bearer` is removed and whitespace stripped.
   */
  function Authenticate(headers: map<string, string>, decode: string -> Decoded, users: seq<User>): (r: Outcome)
    ensures r == Anonymous <==> !HasHeader(headers)
    ensures HasHeader(headers) && !StartsWith(headers[HeaderName], Keyword) ==> r == Failed
    ensures HasHeader(headers) && StartsWith(headers[HeaderName], Keyword) ==>
              r == AuthenticateToken(ExtractToken(headers[HeaderName]), decode, users)
  {
    if !HasHeader(headers) then Anonymous
    else
      var header := headers[HeaderName];
      if !StartsWith(header, Keyword) then Failed
      else AuthenticateToken(ExtractToken(header), decode, users)
  }

  /**
   * The token's part of `authenticate`. It authenticates exactly when the
   * token decodes to an access payload whose integer `user_id` names a
   * stored user, and then as that user. An undecodable token, a payload
   * of another type or an id naming no stored user fails; a payload
   * without a `type` claim, or an access payload without a `user_id`
   * claim, raises.
   */
  function AuthenticateToken(token: string, decode: string -> Decoded, users: seq<User>): (r: Outcome)
    ensures r != Anonymous
    ensures !decode(token).Decoded? ==> r == Failed
    ensures decode(token).Decoded? && TypeClaim !in decode(token).claims ==> r == Raised
    ensures (&& decode(token).Decoded? && TypeClaim in decode(token).claims
             && decode(token).claims[TypeClaim] != StrClaim(AccessType)) ==> r == Failed
    ensures r.Authenticated? <==>
              && decode(token).Decoded?
              && var claims := decode(token).claims;
              && TypeClaim in claims && claims[TypeClaim] == StrClaim(AccessType)
              && UserIdClaim in claims && claims[UserIdClaim].IntClaim?
              && exists u :: u in users && u.id == claims[UserIdClaim].n
    ensures r.Authenticated? ==>
              r.user in users && decode(token).claims[UserIdClaim] == IntClaim(r.user.id)
    ensures (&& decode(token).Decoded? && TypeClaim in decode(token).claims
             && decode(token).claims[TypeClaim] == StrClaim(AccessType)
             && UserIdClaim !in decode(token).claims) ==> r == Raised
    ensures (&& decode(token).Decoded? && TypeClaim in decode(token).claims
             && decode(token).claims[TypeClaim] == StrClaim(AccessType)
             && UserIdClaim in decode(token).claims
             && decode(token).claims[UserIdClaim].IntClaim?
             && forall u :: u in users ==> u.id != decode(token).claims[UserIdClaim].n) ==> r == Failed
    ensures (&& decode(token).Decoded? && TypeClaim in decode(token).claims
             && decode(token).claims[TypeClaim] == StrClaim(AccessType)
             && UserIdClaim in decode(token).claims
             && decode(token).claims[UserIdClaim].StrClaim?) ==> r == Failed
  {
    match VerifyJwt(token, decode)
    case NoPayload => Failed
    case MissingTypeClaim => Raised
    case Payload(payload) =>
      if |payload| == 0 then Failed
      else if UserIdClaim !in payload then Raised
      else match payload[UserIdClaim]
        case IntClaim(id) =>
          (match LookupUser(users, id)
           case Some(user) => Authenticated(user)
           case None => Failed)
        case StrClaim(_) => Failed
  }

  /** After the leading `Bearer ` only the rest of the header matters. */
  lemma ExtractAfterKeyword(tail: string)
    ensures ExtractToken(Keyword + " " + tail) == Strip(RemoveAll(tail, Keyword))
  {
    assert Keyword[0] == 'B';
    assert Keyword + " " + tail == Keyword + ([' '] + tail);
    RemoveAllMatch([' '] + tail);
    MismatchBlocksOccurrence([' '] + tail, Keyword, 0, 0);
    RemoveAllMiss(' ', tail);
    StripAfterSpace(' ', RemoveAll(tail, Keyword));
  }

  /** A token without whitespace or the keyword inside comes out of `Bearer <token>` intact. */
  lemma ExtractBearerToken(token: string)
    requires NoSpace(token) && !Occurs(token, Keyword)
    ensures ExtractToken(Keyword + " " + token) == token
  {
    ExtractAfterKeyword(token);
    RemoveAllWithoutOccurrence(token, Keyword);
    StripUntrimmed(token);
  }

  /**
   * Every occurrence of the keyword is removed, not just the prefix:
   * `Bearer xBearery` yields `xy` for single characters `x` and `y`.
   */
  lemma ExtractTokenRemovesInnerKeyword(x: char, y: char)
    requires !IsSpace(x) && !IsSpace(y)
    ensures ExtractToken(Keyword + " " + [x] + Keyword + [y]) == [x, y]
  {
    assert Keyword[0] == 'B';
    var tail := [x] + (Keyword + [y]);
    assert Keyword + " " + [x] + Keyword + [y] == Keyword + " " + tail;
    ExtractAfterKeyword(tail);
    if x == Keyword[0] {
      assert tail[1] == Keyword[0] && Keyword[0] != Keyword[1];
      MismatchBlocksOccurrence(tail, Keyword, 0, 1);
    } else {
      MismatchBlocksOccurrence(tail, Keyword, 0, 0);
    }
    RemoveAllMiss(x, Keyword + [y]);
    RemoveAllMatch([y]);
    assert RemoveAll([y], Keyword) == [y];
    assert [x] + [y] == [x, y];
    StripUntrimmed([x, y]);
  }

  /**
   * Removal can join the remaining text into a new keyword: the keyword
   * split after its first letter around another keyword, as in
   * `Bearer BBearerearer`, yields `Bearer`.
   */
  lemma ExtractTokenCanLeaveKeyword(head: string, rest: string)
    requires head + rest == Keyword && |head| == 1
    ensures ExtractToken(Keyword + " " + head + Keyword + rest) == Keyword
  {
    assert Keyword[0] == 'B' && Keyword[|Keyword| - 1] == 'r';
    StripUntrimmed(Keyword);
    var tail := head + Keyword + rest;
    assert Keyword + " " + head + Keyword + rest == Keyword + " " + tail;
    ExtractAfterKeyword(tail);
    RemoveAllRejoins(head, rest);
  }

  /** Removing the inner keyword from `B` + keyword + `earer` leaves the keyword. */
  lemma RemoveAllRejoins(head: string, rest: string)
    requires head + rest == Keyword && |head| == 1
    ensures RemoveAll(head + Keyword + rest, Keyword) == Keyword
  {
    assert Keyword[0] == 'B' && Keyword[1] == 'e';
    assert head == [Keyword[0]] && rest[0] == Keyword[1];
    assert head + Keyword + rest == head + (Keyword + rest);
    assert (Keyword + rest)[0] == Keyword[0];
    MismatchBlocksOccurrence([Keyword[0]] + (Keyword + rest), Keyword, 0, 1);
    RemoveAllMiss(Keyword[0], Keyword + rest);
    RemoveAllMatch(rest);
    assert RemoveAll(rest, Keyword) == rest;
  }

  /**
   * Where the keyword starts, `RemoveAll` drops it and carries on: the
   * general law with the pattern fixed to the keyword, so that proofs about
   * headers need not unfold the keyword's letters.
   */
  lemma RemoveAllMatch(s: string)
    ensures RemoveAll(Keyword + s, Keyword) == RemoveAll(s, Keyword)
  {
    RemoveAllDrop(Keyword, s);
  }

  /**
   * Where the keyword does not start, `RemoveAll` keeps the character and
   * carries on: the general law fixed to the keyword, for the same reason.
   */
  lemma RemoveAllMiss(c: char, s: string)
    requires !OccursAt([c] + s, Keyword, 0)
    ensures RemoveAll([c] + s, Keyword) == [c] + RemoveAll(s, Keyword)
  {
    RemoveAllKeep(c, s, Keyword);
  }

  /**
   * End to end: a request carrying `Bearer <access token>` of a freshly
   * issued pair authenticates as the stored user with the token's id.
   */
  lemma IssuedAccessTokenAuthenticates(user: User, users: seq<User>, accessNow: int, refreshNow: int,
                                       encode: Claims -> string, decode: string -> Decoded)
    requires var p := CreatePayloads(user, accessNow, refreshNow);
             DecodesBack(encode, decode, p.0) && DecodesBack(encode, decode, p.1)
    requires var access := CreateJwt(user, accessNow, refreshNow, encode).access;
             NoSpace(access) && !Occurs(access, Keyword)
    requires user in users
    ensures var access := CreateJwt(user, accessNow, refreshNow, encode).access;
            var r := Authenticate(map[HeaderName := Keyword + " " + access], decode, users);
            r.Authenticated? && r.user.id == user.id
  {
    var access := CreateJwt(user, accessNow, refreshNow, encode).access;
    BearerHeaderReachesToken(access, decode, users);
    IssuedTokensCheckByType(user, accessNow, refreshNow, encode, decode);
    var claims := decode(access).claims;
    assert claims[UserIdClaim] == IntClaim(user.id);
  }

  /**
   * End to end: the refresh token of a freshly issued pair, sent the same
   * way, is refused, because the authenticator checks for an access token.
   */
  lemma IssuedRefreshTokenRefused(user: User, users: seq<User>, accessNow: int, refreshNow: int,
                                  encode: Claims -> string, decode: string -> Decoded)
    requires var p := CreatePayloads(user, accessNow, refreshNow);
             DecodesBack(encode, decode, p.0) && DecodesBack(encode, decode, p.1)
    requires var refresh := CreateJwt(user, accessNow, refreshNow, encode).refresh;
             NoSpace(refresh) && !Occurs(refresh, Keyword)
    ensures var refresh := CreateJwt(user, accessNow, refreshNow, encode).refresh;
            Authenticate(map[HeaderName := Keyword + " " + refresh], decode, users) == Failed
  {
    var refresh := CreateJwt(user, accessNow, refreshNow, encode).refresh;
    BearerHeaderReachesToken(refresh, decode, users);
    IssuedTokensCheckByType(user, accessNow, refreshNow, encode, decode);
  }

  /** `Bearer <token>` in the header, for a token that survives extraction, is judged by the token alone. */
  lemma BearerHeaderReachesToken(token: string, decode: string -> Decoded, users: seq<User>)
    requires NoSpace(token) && !Occurs(token, Keyword)
    ensures Authenticate(map[HeaderName := Keyword + " " + token], decode, users) ==
            AuthenticateToken(token, decode, users)
  {
    var header := Keyword + " " + token;
    var headers := map[HeaderName := header];
    assert headers[HeaderName] == header;
    assert header[..|Keyword|] == Keyword;
    ExtractBearerToken(token);
  }

  /**
   * The extraction the header check evidently intends: cut the leading
   * keyword once and strip what follows, leaving the token's own text
   * alone.
   */
  function ExtractTokenIntended(header: string): (token: string)
    requires StartsWith(header, Keyword)
    ensures token == [] || (!IsSpace(token[0]) && !IsSpace(token[|token| - 1]))
  {
    Strip(header[|Keyword|..])
  }

  /** `authenticate` with the intended extraction; everything else as written. */
  function AuthenticateIntended(headers: map<string, string>, decode: string -> Decoded, users: seq<User>): (r: Outcome)
    ensures r == Anonymous <==> !HasHeader(headers)
    ensures HasHeader(headers) && !StartsWith(headers[HeaderName], Keyword) ==> r == Failed
    ensures HasHeader(headers) && StartsWith(headers[HeaderName], Keyword) ==>
              r == AuthenticateToken(ExtractTokenIntended(headers[HeaderName]), decode, users)
  {
    if !HasHeader(headers) then Anonymous
    else
      var header := headers[HeaderName];
      if !StartsWith(header, Keyword) then Failed
      else AuthenticateToken(ExtractTokenIntended(header), decode, users)
  }

  /** The intended extraction gives back every token without surrounding whitespace, whatever it contains. */
  lemma ExtractIntendedRoundTrip(token: string)
    requires token == [] || (!IsSpace(token[0]) && !IsSpace(token[|token| - 1]))
    ensures StartsWith(Keyword + " " + token, Keyword)
    ensures ExtractTokenIntended(Keyword + " " + token) == token
  {
    var header := Keyword + " " + token;
    assert header[..|Keyword|] == Keyword;
    assert header[|Keyword|..] == [' '] + token;
    StripAfterSpace(' ', token);
    StripUntrimmed(token);
  }

  /**
   * For a token without whitespace or the keyword inside, the code as
   * written and the intended extraction agree.
   */
  lemma AuthenticateAgreesWithIntended(token: string, decode: string -> Decoded, users: seq<User>)
    requires NoSpace(token) && !Occurs(token, Keyword)
    ensures var headers := map[HeaderName := Keyword + " " + token];
            Authenticate(headers, decode, users) == AuthenticateIntended(headers, decode, users)
  {
    BearerHeaderReachesToken(token, decode, users);
    ExtractIntendedRoundTrip(token);
    var headers := map[HeaderName := Keyword + " " + token];
    assert headers[HeaderName] == Keyword + " " + token;
  }

  /**
   * As written, an issued access token whose text contains the keyword is
   * refused: the token itself authenticates, but `replace` cuts the keyword
   * out of it, and the mangled text does not decode. The intended
   * extraction accepts the same request.
   */
  lemma InnerKeywordRefusesIssuedToken(user: User, users: seq<User>, accessNow: int, refreshNow: int,
                                       encode: Claims -> string, decode: string -> Decoded, x: char, y: char)
    requires var p := CreatePayloads(user, accessNow, refreshNow);
             DecodesBack(encode, decode, p.0) && DecodesBack(encode, decode, p.1)
    requires CreateJwt(user, accessNow, refreshNow, encode).access == [x] + Keyword + [y]
    requires !IsSpace(x) && !IsSpace(y) && !decode([x, y]).Decoded?
    requires user in users
    ensures var access := CreateJwt(user, accessNow, refreshNow, encode).access;
            var headers := map[HeaderName := Keyword + " " + access];
            && AuthenticateToken(access, decode, users).Authenticated?
            && Authenticate(headers, decode, users) == Failed
            && AuthenticateIntended(headers, decode, users).Authenticated?
  {
    var access := CreateJwt(user, accessNow, refreshNow, encode).access;
    var header := Keyword + " " + access;
    var headers := map[HeaderName := header];
    assert headers[HeaderName] == header;
    IssuedTokensCheckByType(user, accessNow, refreshNow, encode, decode);
    assert decode(access).claims[UserIdClaim] == IntClaim(user.id);
    assert header == Keyword + " " + [x] + Keyword + [y];
    assert header[..|Keyword|] == Keyword;
    ExtractTokenRemovesInnerKeyword(x, y);
    ExtractIntendedRoundTrip(access);
  }

  /**
   * With the intended extraction, every freshly issued access token without
   * surrounding whitespace authenticates, whatever letters it contains.
   */
  lemma IssuedAccessTokenAuthenticatesIntended(user: User, users: seq<User>, accessNow: int, refreshNow: int,
                                               encode: Claims -> string, decode: string -> Decoded)
    requires var p := CreatePayloads(user, accessNow, refreshNow);
             DecodesBack(encode, decode, p.0) && DecodesBack(encode, decode, p.1)
    requires var access := CreateJwt(user, accessNow, refreshNow, encode).access;
             access == [] || (!IsSpace(access[0]) && !IsSpace(access[|access| - 1]))
    requires user in users
    ensures var access := CreateJwt(user, accessNow, refreshNow, encode).access;
            var r := AuthenticateIntended(map[HeaderName := Keyword + " " + access], decode, users);
            r.Authenticated? && r.user.id == user.id
  {
    var access := CreateJwt(user, accessNow, refreshNow, encode).access;
    var headers := map[HeaderName := Keyword + " " + access];
    assert headers[HeaderName] == Keyword + " " + access;
    ExtractIntendedRoundTrip(access);
    IssuedTokensCheckByType(user, accessNow, refreshNow, encode, decode);
    assert decode(access).claims[UserIdClaim] == IntClaim(user.id);
  }

  /** The standard `Authorization` header is not the one read: such a request stays anonymous. */
  lemma StandardHeaderNameIsIgnored(value: string, decode: string -> Decoded, users: seq<User>)
    ensures Authenticate(map["Authorization" := value], decode, users) == Anonymous
  {
  }
}
