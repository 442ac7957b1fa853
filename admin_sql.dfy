/**
 * The `admin_user` table: one row per administrator with the encoded
 * password hash. Lookups go by username; nothing stops two rows from
 * sharing a username, and a lookup then sees the first one.
 */
module AdminSql {
  import opened Wrappers
  import opened AdminModels
  import SortBy

  datatype AdminRow = AdminRow(id: nat, username: string, password: string, creator: string)

  function AdminRowId(r: AdminRow): int { r.id }

  function LoginUserOf(r: AdminRow): AdminLoginUser {
    AdminLoginUser(r.id, r.username, r.password)
  }

  /** Some row has this username. */
  predicate HasUser(rows: seq<AdminRow>, username: string) {
    exists i :: 0 <= i < |rows| && rows[i].username == username
  }

  /** `get_user`: the first row with the username, or `None` when there is none. */
  function GetUser(rows: seq<AdminRow>, username: string): (r: Option<AdminLoginUser>)
    ensures r.None? <==> !HasUser(rows, username)
    ensures r.Some? ==> exists i :: (0 <= i < |rows| && rows[i].username == username &&
      r.value == LoginUserOf(rows[i]) && forall j :: 0 <= j < i ==> rows[j].username != username)
  {
    if rows == [] then None
    else if rows[0].username == username then Some(LoginUserOf(rows[0]))
    else
      var rest := GetUser(rows[1..], username);
      assert forall i :: 1 <= i < |rows| ==> rows[i] == rows[1..][i - 1];
      rest
  }

  /** The rows after `UPDATE admin_user SET password = ? WHERE username = ?`. */
  function SetPasswordRows(rows: seq<AdminRow>, username: string, password: string): (r: seq<AdminRow>)
    ensures |r| == |rows|
    ensures forall i :: 0 <= i < |rows| && rows[i].username != username ==> r[i] == rows[i]
    ensures forall i :: 0 <= i < |rows| && rows[i].username == username ==> r[i] == rows[i].(password := password)
  {
    seq(|rows|, i requires 0 <= i < |rows| =>
      if rows[i].username == username then rows[i].(password := password) else rows[i])
  }

  /** After a password change the user reads back with the new password, and every other user is unaffected. */
  lemma {:induction false} SetPasswordRead(rows: seq<AdminRow>, username: string, password: string, other: string)
    ensures other != username ==> GetUser(SetPasswordRows(rows, username, password), other) == GetUser(rows, other)
    ensures GetUser(SetPasswordRows(rows, username, password), username) ==
      match GetUser(rows, username) case None => None case Some(u) => Some(u.(password := password))
  {
    if rows != [] {
      var r := SetPasswordRows(rows, username, password);
      assert r[1..] == SetPasswordRows(rows[1..], username, password);
      SetPasswordRead(rows[1..], username, password, other);
    }
  }

  /**
   * Adding a row for a username that already exists changes no lookup: the
   * earlier row still answers, so the new password is never consulted.
   */
  lemma {:induction false} DuplicateUserShadowed(rows: seq<AdminRow>, row: AdminRow, username: string)
    requires HasUser(rows, username)
    ensures GetUser(rows + [row], username) == GetUser(rows, username)
  {
    if rows[0].username != username {
      assert (rows + [row])[1..] == rows[1..] + [row];
      var i :| 0 <= i < |rows| && rows[i].username == username;
      assert rows[1..][i - 1] == rows[i];
      DuplicateUserShadowed(rows[1..], row, username);
    }
  }

  /** Ids strictly increase along the table and stay below the next id to hand out. */
  ghost predicate AdminTableOrdered(rows: seq<AdminRow>, nextId: nat) {
    SortBy.StrictlyIncreasing(rows, AdminRowId) && forall i :: 0 <= i < |rows| ==> rows[i].id < nextId
  }

  class AdminStore {
    var rows: seq<AdminRow>
    /** The AUTO_INCREMENT counter. */
    var nextId: nat

    ghost predicate Valid()
      reads this
    {
      1 <= nextId && AdminTableOrdered(rows, nextId)
    }

    constructor ()
      ensures Valid() && rows == [] && nextId == 1
    {
      rows := [];
      nextId := 1;
    }

    /** `create_user`: appends a row, without looking for an existing username, and returns its id. */
    method CreateUser(username: string, password: string, operator: string) returns (id: nat)
      requires Valid()
      modifies this
      ensures Valid()
      ensures id == old(nextId) && nextId == old(nextId) + 1
      ensures rows == old(rows) + [AdminRow(id, username, password, operator)]
    {
      id := nextId;
      rows := rows + [AdminRow(id, username, password, operator)];
      nextId := nextId + 1;
    }

    /** `update_password`: replaces the password of every row with the username; reports whether one matched. */
    method UpdatePassword(username: string, password: string) returns (ok: bool)
      requires Valid()
      modifies this
      ensures Valid() && nextId == old(nextId)
      ensures rows == SetPasswordRows(old(rows), username, password)
      ensures ok == HasUser(old(rows), username)
    {
      ok := HasUser(rows, username);
      rows := SetPasswordRows(rows, username, password);
    }
  }
}
