/**
 * The administrator endpoints: login, the header check every protected
 * route runs, user creation and password change.
 *
 * Argon2 is not modelled: hashing and checking a password are passed in as
 * functions. A `PasswordHasher` encodes a password with a salt, or returns
 * `None` when the library fails; a `PasswordVerifier` says whether a
 * candidate matches an encoded hash, or returns `None` when the stored hash
 * is malformed. The random salt and the current time are parameters.
 */
module AdminHandlers {
  import opened Wrappers
  import opened Models
  import opened AdminModels
  import opened RustText
  import opened AdminSql
  import Jwt

  type PasswordHasher = (string, seq<bv8>) -> Option<string>
  type PasswordVerifier = (string, string) -> Option<bool>

  /** The key login signs with and `auth_handler` checks with, fixed in the code. */
  const JWT_SECRET: string := "sy#S7;g1@m&Y"
  /** How long a session token lives: two days, in seconds. */
  const TOKEN_LIFETIME: nat := 2 * 24 * 60 * 60
  /** The fewest UTF-8 bytes a new password may have. */
  const MIN_PASSWORD_BYTES: nat := 12
  /** The only username allowed to create users. */
  const ADMIN: string := "admin"

  /** Why an administrator request is refused. */
  datatype AdminError =
    | Auth(error: AuthError)
    | PasswordTooShort          // "password length must not be shorter than 12."
    | TokenEncodeFailed         // the token library could not sign

  /** `verify_password`: a malformed stored hash counts as a wrong password. */
  function VerifyPassword(hash: string, candidate: string, check: PasswordVerifier): (r: Result<bool, AuthError>)
    ensures r.Success? <==> check(hash, candidate).Some?
    ensures r.Success? ==> r.value == check(hash, candidate).value
    ensures r.Failure? ==> r.error == InvalidCredentials
  {
    match check(hash, candidate)
    case None => Failure(InvalidCredentials)
    case Some(ok) => Success(ok)
  }

  /** `hash_password`: a library failure becomes `EncryptError`. */
  function HashPassword(password: string, salt: seq<bv8>, hash: PasswordHasher): (r: Result<string, AuthError>)
    ensures r.Success? <==> hash(password, salt).Some?
    ensures r.Success? ==> r.value == hash(password, salt).value
    ensures r.Failure? ==> r.error == EncryptError
  {
    match hash(password, salt)
    case None => Failure(EncryptError)
    case Some(h) => Success(h)
  }

  /** The claims `create_jwt` signs: the id in decimal, the username, and an expiry two days after `now`. */
  function SessionClaims(id: nat, username: string, now: nat): (c: Claims)
    ensures c.sub != [] && AllDigits(c.sub)
    ensures c.name == username
    ensures now < c.exp
  {
    Claims(ToDecimal(id), username, now + TOKEN_LIFETIME)
  }

  /** The subject of a session token parses back to the user's id, and the expiry lies two days ahead. */
  lemma SessionClaimsRead(id: nat, username: string, now: nat)
    requires id < U64_LIMIT
    ensures ParseU64(SessionClaims(id, username, now).sub) == Some(id)
    ensures SessionClaims(id, username, now).name == username
    ensures SessionClaims(id, username, now).exp == now + 172800
  {
    ParseU64ToDecimal(id);
  }

  /** `create_jwt`: signs the session claims with the fixed key. */
  function CreateJwt(id: nat, username: string, now: nat, encode: Jwt.TokenEncoder): (r: Result<string, AdminError>)
    ensures r.Success? <==> encode(SessionClaims(id, username, now), JWT_SECRET).Some?
    ensures r.Success? ==> encode(SessionClaims(id, username, now), JWT_SECRET) == Some(r.value)
    ensures r.Failure? ==> r.error == TokenEncodeFailed
  {
    match encode(SessionClaims(id, username, now), JWT_SECRET)
    case None => Failure(TokenEncodeFailed)
    case Some(t) => Success(t)
  }

  /**
   * `login_handler`: an unknown username, then a password that does not
   * check (or a stored hash that cannot be read), are refused; otherwise a
   * session token for the stored id and username.
   */
  function LoginHandler(users: seq<AdminRow>, req: AdminLoginRequest, now: nat,
                        check: PasswordVerifier, encode: Jwt.TokenEncoder): (r: Result<string, AdminError>)
    ensures GetUser(users, req.username).None? ==> r == Failure(Auth(InvalidUserName))
    ensures GetUser(users, req.username).Some? && check(GetUser(users, req.username).value.password, req.password) != Some(true) ==>
      r == Failure(Auth(InvalidCredentials))
    ensures r.Success? ==> (GetUser(users, req.username).Some? &&
      check(GetUser(users, req.username).value.password, req.password) == Some(true) &&
      encode(SessionClaims(GetUser(users, req.username).value.id, GetUser(users, req.username).value.username, now), JWT_SECRET) == Some(r.value))
    ensures GetUser(users, req.username).Some? && check(GetUser(users, req.username).value.password, req.password) == Some(true) ==>
      r == CreateJwt(GetUser(users, req.username).value.id, GetUser(users, req.username).value.username, now, encode)
  {
    match GetUser(users, req.username)
    case None => Failure(Auth(InvalidUserName))
    case Some(user) =>
      match VerifyPassword(user.password, req.password, check)
      case Failure(e) => Failure(Auth(e))
      case Success(valid) =>
        if valid then CreateJwt(user.id, user.username, now, encode)
        else Failure(Auth(InvalidCredentials))
  }

  /** `auth_handler`: the same steps as `decode_to_admin_user`, written out with the fixed key. */
  function AuthHandler(header: Option<string>, verify: Jwt.TokenVerifier): (r: Result<AdminUser, AuthError>)
    ensures header.None? ==> r == Failure(NoAuthHeaderError)
    ensures header.Some? && !StartsWith(header.value, Jwt.BEARER) ==> r == Failure(InvalidAuthHeaderError)
  {
    match header
    case None => Failure(NoAuthHeaderError)
    case Some(v) =>
      if !StartsWith(v, Jwt.BEARER) then
        Failure(InvalidAuthHeaderError)
      else
        match verify(TrimStartMatches(v, Jwt.BEARER), JWT_SECRET)
        case None => Failure(JWTTokenError)
        case Some(claims) =>
          match ParseU64(claims.sub)
          case None => Failure(InvalidAuthHeaderError)
          case Some(id) => Success(AdminUser(id, claims.name))
  }

  /** `auth_handler` decides exactly as `decode_to_admin_user` does under the fixed key: same errors, same order, same caller. */
  lemma AuthHandlerIsDecodeToAdminUser(header: Option<string>, verify: Jwt.TokenVerifier)
    ensures AuthHandler(header, verify) == Jwt.Jwt(JWT_SECRET).DecodeToAdminUser(header, verify)
  {
  }

  /**
   * A token from a successful login at `now`, sent back as "Bearer <token>"
   * at a time `later` less than two days on, authenticates as the stored user
   * (given a verifier that, at `later`, gives back what the encoder signed and
   * has not expired).
   */
  lemma LoginThenAuthenticate(users: seq<AdminRow>, req: AdminLoginRequest, now: nat, later: nat,
                              check: PasswordVerifier, encode: Jwt.TokenEncoder, verify: Jwt.TokenVerifier)
    requires later < now + TOKEN_LIFETIME
    requires Jwt.RoundTrips(encode, verify, JWT_SECRET, later)
    requires LoginHandler(users, req, now, check, encode).Success?
    requires !StartsWith(LoginHandler(users, req, now, check, encode).value, Jwt.BEARER)
    requires GetUser(users, req.username).Some? && GetUser(users, req.username).value.id < U64_LIMIT
    ensures AuthHandler(Some(Jwt.BEARER + LoginHandler(users, req, now, check, encode).value), verify) ==
      Success(AdminUser(GetUser(users, req.username).value.id, GetUser(users, req.username).value.username))
  {
    var user := GetUser(users, req.username).value;
    var claims := SessionClaims(user.id, user.username, now);
    var key := Jwt.Jwt(JWT_SECRET);
    assert key.Encode(claims, encode) == Some(LoginHandler(users, req, now, check, encode).value);
    Jwt.EncodeThenDecode(key, claims, encode, verify, later);
    SessionClaimsRead(user.id, user.username, now);
    AuthHandlerIsDecodeToAdminUser(Some(Jwt.BEARER + LoginHandler(users, req, now, check, encode).value), verify);
  }

  /**
   * `create_user_handler`: only the user named exactly "admin" may create
   * users; the password is stored hashed, with the actor as creator. An
   * existing username is not checked for.
   */
  method CreateUserHandler(store: AdminStore, actor: AdminUser, req: AdminLoginRequest,
                           salt: seq<bv8>, hash: PasswordHasher) returns (r: Result<nat, AdminError>)
    requires store.Valid()
    modifies store
    ensures store.Valid()
    ensures actor.username != ADMIN ==> r == Failure(Auth(NoPermissionError))
    ensures actor.username == ADMIN && hash(req.password, salt).None? ==> r == Failure(Auth(EncryptError))
    ensures r.Failure? ==> store.rows == old(store.rows) && store.nextId == old(store.nextId)
    ensures r.Success? <==> actor.username == ADMIN && hash(req.password, salt).Some?
    ensures r.Success? ==> (r.value == old(store.nextId) && store.nextId == old(store.nextId) + 1 &&
      store.rows == old(store.rows) + [AdminRow(old(store.nextId), req.username, hash(req.password, salt).value, actor.username)])
  {
    if actor.username != ADMIN {
      return Failure(Auth(NoPermissionError));
    }
    var pw := HashPassword(req.password, salt, hash);
    if pw.Failure? {
      return Failure(Auth(pw.error));
    }
    var id := store.CreateUser(req.username, pw.value, actor.username);
    r := Success(id);
  }

  /** What a password change writes, or why it is refused, from the table as it was. */
  function PasswordChange(users: seq<AdminRow>, actor: AdminUser, req: UpdatePassword, salt: seq<bv8>,
                          check: PasswordVerifier, hash: PasswordHasher): (r: Result<string, AdminError>)
    ensures Utf8Length(req.newPassword) < MIN_PASSWORD_BYTES ==> r == Failure(PasswordTooShort)
    ensures Utf8Length(req.newPassword) >= MIN_PASSWORD_BYTES && GetUser(users, actor.username).None? ==>
      r == Failure(Auth(InvalidUserName))
    ensures (Utf8Length(req.newPassword) >= MIN_PASSWORD_BYTES && GetUser(users, actor.username).Some? &&
      check(GetUser(users, actor.username).value.password, req.oldPassword) != Some(true)) ==>
      r == Failure(Auth(InvalidCredentials))
    ensures r.Success? ==> (Utf8Length(req.newPassword) >= MIN_PASSWORD_BYTES && GetUser(users, actor.username).Some? &&
      check(GetUser(users, actor.username).value.password, req.oldPassword) == Some(true) &&
      hash(req.newPassword, salt) == Some(r.value))
    ensures (Utf8Length(req.newPassword) >= MIN_PASSWORD_BYTES && GetUser(users, actor.username).Some? &&
      check(GetUser(users, actor.username).value.password, req.oldPassword) == Some(true)) ==>
      r == (match hash(req.newPassword, salt) case None => Failure(Auth(EncryptError)) case Some(h) => Success(h))
  {
    if Utf8Length(req.newPassword) < MIN_PASSWORD_BYTES then
      Failure(PasswordTooShort)
    else
      match GetUser(users, actor.username)
      case None => Failure(Auth(InvalidUserName))
      case Some(u) =>
        match VerifyPassword(u.password, req.oldPassword, check)
        case Failure(e) => Failure(Auth(e))
        case Success(valid) =>
          if !valid then Failure(Auth(InvalidCredentials))
          else
            match HashPassword(req.newPassword, salt, hash)
            case Failure(e) => Failure(Auth(e))
            case Success(h) => Success(h)
  }

  /** A new password of fewer than 12 ASCII characters is refused before anything else is looked at. */
  lemma ShortAsciiPasswordRefused(users: seq<AdminRow>, actor: AdminUser, req: UpdatePassword, salt: seq<bv8>,
                                  check: PasswordVerifier, hash: PasswordHasher)
    requires |req.newPassword| < MIN_PASSWORD_BYTES
    requires forall i :: 0 <= i < |req.newPassword| ==> req.newPassword[i] as int < 0x80
    ensures PasswordChange(users, actor, req, salt, check, hash) == Failure(PasswordTooShort)
  {
  }

  /**
   * `update_password_handler`: the length rule comes first, then the lookup
   * of the caller, then the old password; only then is the new hash written,
   * to the caller's rows and no other.
   */
  method UpdatePasswordHandler(store: AdminStore, actor: AdminUser, req: UpdatePassword, salt: seq<bv8>,
                               check: PasswordVerifier, hash: PasswordHasher) returns (r: Result<Unit, AdminError>)
    requires store.Valid()
    modifies store
    ensures store.Valid() && store.nextId == old(store.nextId)
    ensures PasswordChange(old(store.rows), actor, req, salt, check, hash).Failure? ==>
      (r == Failure(PasswordChange(old(store.rows), actor, req, salt, check, hash).error) && store.rows == old(store.rows))
    ensures PasswordChange(old(store.rows), actor, req, salt, check, hash).Success? ==> (r == Success(Unit) &&
      store.rows == SetPasswordRows(old(store.rows), actor.username, PasswordChange(old(store.rows), actor, req, salt, check, hash).value))
    ensures r.Success? ==> (GetUser(store.rows, actor.username) ==
      Some(GetUser(old(store.rows), actor.username).value.(password := hash(req.newPassword, salt).value)))
    ensures forall other :: other != actor.username ==> GetUser(store.rows, other) == GetUser(old(store.rows), other)
  {
    if Utf8Length(req.newPassword) < MIN_PASSWORD_BYTES {
      return Failure(PasswordTooShort);
    }
    var found := GetUser(store.rows, actor.username);
    if found.None? {
      return Failure(Auth(InvalidUserName));
    }
    var valid := VerifyPassword(found.value.password, req.oldPassword, check);
    if valid.Failure? {
      return Failure(Auth(valid.error));
    }
    if !valid.value {
      return Failure(Auth(InvalidCredentials));
    }
    var newPassword := HashPassword(req.newPassword, salt, hash);
    if newPassword.Failure? {
      return Failure(Auth(newPassword.error));
    }
    ghost var before := store.rows;
    var _ := store.UpdatePassword(actor.username, newPassword.value);
    forall other | other != actor.username
      ensures GetUser(store.rows, other) == GetUser(before, other)
    {
      SetPasswordRead(before, actor.username, newPassword.value, other);
    }
    SetPasswordRead(before, actor.username, newPassword.value, actor.username);
    r := Success(Unit);
  }
}
