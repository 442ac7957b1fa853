/**
 * Reading the caller out of an `Authorization` header: the Bearer scheme of
 * section 2.1 of RFC 6750 (matched case-sensitively), then the token
 * library's HS512 check, then the subject as a decimal `u64`.
 *
 * The token library is not modelled: signing and verifying are passed in as
 * functions. A `TokenEncoder` returns the token for some claims under a
 * secret, or `None` when signing fails; a `TokenVerifier` is the library's
 * check at one moment: it returns the claims a token carries under a secret,
 * or `None` for a bad signature, a malformed token or one expired by then.
 */
module Jwt {
  import opened Wrappers
  import opened Models
  import opened AdminModels
  import opened RustText

  type TokenEncoder = (Claims, string) -> Option<string>
  type TokenVerifier = (string, string) -> Option<Claims>

  const BEARER: string := "Bearer "

  /**
   * The verifier, as the library checks at time `now`, gives back what the
   * encoder signed under the same secret, as long as it has not expired.
   */
  ghost predicate RoundTrips(encode: TokenEncoder, verify: TokenVerifier, secret: string, now: nat) {
    forall c: Claims, t: string :: encode(c, secret) == Some(t) && now < c.exp ==> verify(t, secret) == Some(c)
  }

  /** The verifier, as the library checks at time `now`, accepts no claims that have expired by then. */
  ghost predicate RefusesExpired(verify: TokenVerifier, secret: string, now: nat) {
    forall t: string :: verify(t, secret).Some? ==> now < verify(t, secret).value.exp
  }

  /** The signing key, set once at start-up. */
  datatype Jwt = Jwt(secret: string) {

    /** `encode`: an HS512 token for the claims under this key; `None` is the library's failure. */
    function Encode(claims: Claims, encode: TokenEncoder): (r: Option<string>)
      ensures r.Some? <==> encode(claims, secret).Some?
      ensures r.Some? ==> encode(claims, secret) == Some(r.value)
    {
      encode(claims, secret)
    }

    /**
     * `decode`: no header, then a header without the exact "Bearer " prefix,
     * then a token the library refuses, each fail with their own error;
     * otherwise the token's claims.
     */
    function Decode(header: Option<string>, verify: TokenVerifier): (r: Result<Claims, AuthError>)
      ensures header.None? ==> r == Failure(NoAuthHeaderError)
      ensures header.Some? && !StartsWith(header.value, BEARER) ==> r == Failure(InvalidAuthHeaderError)
      ensures header.Some? && StartsWith(header.value, BEARER) ==>
        (r.Success? <==> verify(TrimStartMatches(header.value, BEARER), secret).Some?)
      ensures r.Success? ==> (header.Some? && StartsWith(header.value, BEARER) &&
        verify(TrimStartMatches(header.value, BEARER), secret) == Some(r.value))
      ensures r.Failure? && header.Some? && StartsWith(header.value, BEARER) ==> r.error == JWTTokenError
    {
      match header
      case None => Failure(NoAuthHeaderError)
      case Some(v) =>
        if !StartsWith(v, BEARER) then
          Failure(InvalidAuthHeaderError)
        else
          match verify(TrimStartMatches(v, BEARER), secret)
          case None => Failure(JWTTokenError)
          case Some(claims) => Success(claims)
    }

    /**
     * `decode_to_admin_user`: the errors of `Decode` pass through unchanged;
     * a subject that is not a `u64` is an invalid header; otherwise the
     * caller's id is the parsed subject and the name is the claims' name.
     */
    function DecodeToAdminUser(header: Option<string>, verify: TokenVerifier): (r: Result<AdminUser, AuthError>)
      ensures Decode(header, verify).Failure? ==> r == Failure(Decode(header, verify).error)
      ensures Decode(header, verify).Success? && ParseU64(Decode(header, verify).value.sub).None? ==>
        r == Failure(InvalidAuthHeaderError)
      ensures Decode(header, verify).Success? && ParseU64(Decode(header, verify).value.sub).Some? ==>
        r == Success(AdminUser(ParseU64(Decode(header, verify).value.sub).value, Decode(header, verify).value.name))
      ensures r.Success? ==> (Decode(header, verify).Success? &&
        ParseU64(Decode(header, verify).value.sub) == Some(r.value.id) &&
        r.value.username == Decode(header, verify).value.name && r.value.id < U64_LIMIT)
    {
      match Decode(header, verify)
      case Failure(e) => Failure(e)
      case Success(claims) =>
        match ParseU64(claims.sub)
        case None => Failure(InvalidAuthHeaderError)
        case Some(id) => Success(AdminUser(id, claims.name))
    }
  }

  /** Without a well-formed header the verifier is never consulted: any two verifiers give the same answer. */
  lemma RejectedBeforeVerify(key: Jwt, header: Option<string>, v1: TokenVerifier, v2: TokenVerifier)
    requires header.None? || !StartsWith(header.value, BEARER)
    ensures key.Decode(header, v1) == key.Decode(header, v2)
    ensures key.Decode(header, v1).Failure?
  {
  }

  /** The scheme is matched case-sensitively: "bearer " is refused as an invalid header. */
  lemma LowercaseSchemeRejected(key: Jwt, token: string, verify: TokenVerifier)
    ensures key.Decode(Some("bearer " + token), verify) == Failure(InvalidAuthHeaderError)
  {
    var h := "bearer " + token;
    assert h[0] != BEARER[0];
  }

  /** Every leading "Bearer " is stripped: "Bearer Bearer t" is checked as "t". */
  lemma RepeatedPrefixStripped(key: Jwt, k: nat, token: string, verify: TokenVerifier)
    requires k >= 1 && !StartsWith(token, BEARER)
    ensures key.Decode(Some(Repeat(BEARER, k) + token), verify) ==
      match verify(token, key.secret) case None => Failure(JWTTokenError) case Some(c) => Success(c)
  {
    var h := Repeat(BEARER, k) + token;
    assert h == BEARER + (Repeat(BEARER, k - 1) + token);
    assert h[..|BEARER|] == BEARER;
    TrimStartMatchesRepeat(BEARER, k, token);
  }

  /**
   * A token this key signed, sent back as "Bearer <token>", decodes to the
   * claims it was made from, at any moment before they expire (as long as the
   * token does not itself start with the prefix, which a JWT never does).
   */
  lemma EncodeThenDecode(key: Jwt, claims: Claims, encode: TokenEncoder, verify: TokenVerifier, now: nat)
    requires RoundTrips(encode, verify, key.secret, now) && now < claims.exp
    requires key.Encode(claims, encode).Some?
    requires !StartsWith(key.Encode(claims, encode).value, BEARER)
    ensures key.Decode(Some(BEARER + key.Encode(claims, encode).value), verify) == Success(claims)
  {
    var t := key.Encode(claims, encode).value;
    assert Repeat(BEARER, 1) == BEARER;
    RepeatedPrefixStripped(key, 1, t, verify);
  }

  /** Whatever header is sent, a verifier that refuses expired claims never lets expired claims through. */
  lemma DecodeNotExpired(key: Jwt, header: Option<string>, verify: TokenVerifier, now: nat)
    requires RefusesExpired(verify, key.secret, now)
    ensures key.Decode(header, verify).Success? ==> now < key.Decode(header, verify).value.exp
  {
  }

  /** When the subject is the decimal form of an id, the caller recovered is that id with the claims' name. */
  lemma DecodeToAdminUserOfDecimalSubject(key: Jwt, header: Option<string>, verify: TokenVerifier, id: nat)
    requires id < U64_LIMIT
    requires key.Decode(header, verify).Success? && key.Decode(header, verify).value.sub == ToDecimal(id)
    ensures key.DecodeToAdminUser(header, verify) == Success(AdminUser(id, key.Decode(header, verify).value.name))
  {
    ParseU64ToDecimal(id);
  }

  /** Subjects that are not canonical decimal text still authenticate: "+7" and "007" both give the caller 7. */
  lemma DecodeToAdminUserOfSignedSubject(key: Jwt, header: Option<string>, verify: TokenVerifier)
    requires key.Decode(header, verify).Success?
    requires key.Decode(header, verify).value.sub in {"+7", "007"}
    ensures key.DecodeToAdminUser(header, verify) == Success(AdminUser(7, key.Decode(header, verify).value.name))
  {
    var sub := key.Decode(header, verify).value.sub;
    var d := U64Digits(sub);
    if sub == "+7" {
      assert d == "7" && d[..0] == [];
      assert DigitsValue(d) == DigitsValue([]) * 10 + DigitValue('7');
    } else {
      assert d == "007" && d[..2] == "00" && d[..2][..1] == "0" && d[..2][..1][..0] == [];
      assert DigitsValue("0") == DigitsValue([]) * 10 + DigitValue('0') == 0;
      assert DigitsValue("00") == DigitsValue("0") * 10 + DigitValue('0') == 0;
      assert DigitsValue(d) == DigitsValue("00") * 10 + DigitValue('7');
    }
    assert AllDigits(d) && DigitsValue(d) == 7;
  }
}
