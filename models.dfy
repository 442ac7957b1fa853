/**
 * Shared definitions of the backend: page-size bounds, paging requests, the
 * numeric row status every table carries, and the authentication errors.
 */
module Models {
  import opened Wrappers
  import RustText

  /** Default page size of a brand's product list. */
  const MIN_ROWS: nat := 20
  /** Largest page any list query returns, and the default for brands and products. */
  const MAX_ROWS: nat := 100

  lemma RowBoundsOrdered()
    ensures 0 < MIN_ROWS <= MAX_ROWS
  {
  }

  /** Query-string paging; both parts may be omitted. */
  datatype Paging = Paging(offset: Option<nat>, limit: Option<nat>)

  /** `offset.unwrap_or(0)`. */
  function Offset(paging: Paging): (o: nat)
    ensures paging.offset.None? ==> o == 0
    ensures paging.offset.Some? ==> o == paging.offset.value
  {
    paging.offset.GetOr(0)
  }

  /** `limit.unwrap_or(default).min(MAX_ROWS)`: the requested size, never above MAX_ROWS. */
  function Limit(paging: Paging, default: nat): (n: nat)
    ensures n <= MAX_ROWS
    ensures paging.limit.None? ==> n == if default <= MAX_ROWS then default else MAX_ROWS
    ensures paging.limit.Some? && paging.limit.value <= MAX_ROWS ==> n == paging.limit.value
    ensures paging.limit.Some? && paging.limit.value > MAX_ROWS ==> n == MAX_ROWS
  {
    var requested := paging.limit.GetOr(default);
    if requested <= MAX_ROWS then requested else MAX_ROWS
  }

  /** How many rows `LIMIT offset, limit` returns from `n` rows: none past the end, else at most the limit. */
  function PageLength(n: nat, paging: Paging, default: nat): (len: nat)
    ensures len <= Limit(paging, default)
    ensures Offset(paging) >= n ==> len == 0
    ensures Offset(paging) < n ==> Offset(paging) + len <= n && (len == Limit(paging, default) || Offset(paging) + len == n)
  {
    if Offset(paging) >= n then 0
    else if Offset(paging) + Limit(paging, default) <= n then Limit(paging, default)
    else n - Offset(paging)
  }

  /**
   * `LIMIT offset, limit` over an ordered result: the contiguous run of at
   * most `Limit` rows starting at `Offset`; empty past the end.
   */
  function Page<T>(rows: seq<T>, paging: Paging, default: nat): (r: seq<T>)
    ensures |r| <= Limit(paging, default) <= MAX_ROWS
    ensures |r| == PageLength(|rows|, paging, default)
    ensures Offset(paging) >= |rows| ==> r == []
    ensures Offset(paging) < |rows| ==>
      |r| == (if Offset(paging) + Limit(paging, default) <= |rows| then Limit(paging, default) else |rows| - Offset(paging)) &&
      r == rows[Offset(paging)..Offset(paging) + |r|]
    ensures forall k :: 0 <= k < |r| ==> Offset(paging) + k < |rows| && r[k] == rows[Offset(paging) + k]
  {
    var start := if Offset(paging) <= |rows| then Offset(paging) else |rows|;
    var end := if start + Limit(paging, default) <= |rows| then start + Limit(paging, default) else |rows|;
    rows[start..end]
  }

  /** A page of a sequence ordered by `f` is ordered by `f`. */
  lemma PageOrdered<T>(rows: seq<T>, paging: Paging, default: nat, f: T -> int)
    requires forall i, j :: 0 <= i < j < |rows| ==> f(rows[i]) < f(rows[j])
    ensures forall i, j :: 0 <= i < j < |Page(rows, paging, default)| ==>
      f(Page(rows, paging, default)[i]) < f(Page(rows, paging, default)[j])
  {
    var r := Page(rows, paging, default);
    forall i, j | 0 <= i < j < |r| ensures f(r[i]) < f(r[j]) {
      assert r[i] == rows[Offset(paging) + i] && r[j] == rows[Offset(paging) + j];
    }
  }

  /** The `status` column: `Valid = 0` (active) and `Invalid = 1` (soft-deleted). */
  datatype CommonStatus = Valid | Invalid {
    /** `status as i8`, the number stored in and compared against the column. */
    function Code(): (c: nat)
      ensures c <= 1
      ensures (c == 0) == Valid?
    {
      match this
      case Valid => 0
      case Invalid => 1
    }

    /** `Display`, used when the status is spliced into a query text. */
    function Display(): (s: string)
      ensures |s| == 1
    {
      match this
      case Valid => "0"
      case Invalid => "1"
    }
  }

  /** The text form agrees with the numeric cast, so both kinds of query test the same rows. */
  lemma DisplayIsCode(s: CommonStatus)
    ensures s.Display() == RustText.ToDecimal(s.Code())
  {
    match s
    case Valid =>
      assert RustText.ToDecimal(0) == [RustText.DigitChar(0)];
    case Invalid =>
      assert RustText.ToDecimal(1) == [RustText.DigitChar(1)];
  }

  /** Distinct statuses are stored as distinct codes. */
  lemma CodeInjective(a: CommonStatus, b: CommonStatus)
    ensures a.Code() == b.Code() <==> a == b
  {
  }

  /** A row counts as present for every validity query exactly when its code is `Valid`'s. */
  predicate IsActive(status: int) {
    status == Valid.Code()
  }

  /** `AuthError`, with the message each variant displays. */
  datatype AuthError =
    | NoAuthHeaderError
    | InvalidAuthHeaderError
    | InvalidUserName
    | InvalidCredentials
    | EncryptError
    | JWTTokenError
    | JWTTokenCreationError
    | NoPermissionError
  {
    function Message(): (m: string)
      ensures m != []
    {
      match this
      case NoAuthHeaderError => "no auth header"
      case InvalidAuthHeaderError => "invalid auth header"
      case InvalidUserName => "invalid username"
      case InvalidCredentials => "invalid credentials (password)"
      case EncryptError => "could not hash password"
      case JWTTokenError => "jwt token not valid"
      case JWTTokenCreationError => "jwt token creation error"
      case NoPermissionError => "no permission"
    }
  }

  /** Every variant has its own message, so the message identifies the error. */
  lemma AuthErrorMessagesDistinct(a: AuthError, b: AuthError)
    requires a != b
    ensures a.Message() != b.Message()
  {
    var m, n := a.Message(), b.Message();
    if |m| == |n| {
      if a.InvalidAuthHeaderError? || a.JWTTokenError? {
        assert m[0] != n[0];
      }
    }
  }
}
