/** The records exchanged by the administrator endpoints. */
module AdminModels {

  /** The payload of a session token: subject (the user id as text), display name, expiry. */
  datatype Claims = Claims(sub: string, name: string, exp: nat)

  /** Login and create-user request body. */
  datatype AdminLoginRequest = AdminLoginRequest(username: string, password: string)

  /** A stored administrator as read for login; `password` is the encoded hash. */
  datatype AdminLoginUser = AdminLoginUser(id: nat, username: string, password: string)

  /** The authenticated caller, as recovered from a token. */
  datatype AdminUser = AdminUser(id: nat, username: string)

  /** Password change request body. */
  datatype UpdatePassword = UpdatePassword(oldPassword: string, newPassword: string)
}
