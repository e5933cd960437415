/** JSON Web Tokens as the backend sees them. Signing and verification with
    the shared secret, and expiry against the clock, belong to the
    `jsonwebtoken` library: verification is passed to the middlewares as a
    `Verifier`. */
module Jwt {
  import opened Base
  import opened Js

  /** The payload claims the middlewares read; `Undefined` when a claim is
      absent. */
  datatype Claims = Claims(childId: JsValue, parentId: JsValue, role: JsValue)

  /** A signed token: its payload and the `expiresIn` option it was signed with. */
  datatype Token = Token(claims: Claims, expiresIn: string)

  /** `jwt.verify(token, JWT_SECRET)`: the payload of a well-formed, correctly
      signed, unexpired token, and `None` where the library throws. */
  type Verifier = string -> Option<Claims>

}
