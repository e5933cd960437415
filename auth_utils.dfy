/** backend/utils/auth.js: the child token's claims and the public
    identifier derived from a child's row id. */
module AuthUtils {
  import opened Base
  import opened Js
  import opened Jwt
  import opened JsString

  /** The token lifetime used when `JWT_EXPIRES` is not set. */
  const DefaultExpiry: string := "7d"

  /** The literal prefix of every public identifier. */
  const PublicIdPrefix: string := "id"

  /** `signChildToken(child)`, with `JWT_EXPIRES` passed as `jwtExpires`: the
      payload carries the child's id as `child_id` and no other claim (in
      particular no role), and the lifetime is `JWT_EXPIRES` when set, seven days otherwise. */
  function SignChildToken(childId: nat, jwtExpires: Text): (t: Token)
    ensures t.claims.childId == Num(childId)
    ensures t.claims.parentId.Undefined? && t.claims.role.Undefined?
    ensures t.expiresIn != ""
    ensures Filled(jwtExpires) ==> t.expiresIn == jwtExpires.value
    ensures !Filled(jwtExpires) ==> t.expiresIn == DefaultExpiry
  {
    Token(Claims(Num(childId), Undefined, Undefined), TextOr(jwtExpires, DefaultExpiry))
  }

  /** `generatePublicId(dbId)`: `"id"` followed by the decimal digits of the
      id, never the placeholder `"temp"` a fresh row is inserted with. */
  function GeneratePublicId(id: nat): (p: string)
    ensures |p| > |PublicIdPrefix| && p[..|PublicIdPrefix|] == PublicIdPrefix
    ensures forall k :: |PublicIdPrefix| <= k < |p| ==> IsDigit(p[k])
    ensures p[|PublicIdPrefix|..] == DecimalText(id)
    ensures p != "temp"
  {
    var p := PublicIdPrefix + DecimalText(id);
    assert p[0] == 'i';
    p
  }

  /** Reads a public identifier back into the row id it was made from. */
  function ParsePublicId(p: string): Option<nat> {
    if |p| > |PublicIdPrefix| && p[..|PublicIdPrefix|] == PublicIdPrefix
       && forall k :: |PublicIdPrefix| <= k < |p| ==> IsDigit(p[k])
    then Some(DecimalValue(p[|PublicIdPrefix|..]))
    else None
  }

  /** The public identifier determines the row id it was made from. */
  lemma PublicIdRoundTrip(id: nat)
    ensures ParsePublicId(GeneratePublicId(id)) == Some(id)
  {
    var p := GeneratePublicId(id);
    assert p[|PublicIdPrefix|..] == DecimalText(id);
    DecimalRoundTrip(id);
  }

  /** Distinct row ids give distinct public identifiers. */
  lemma PublicIdInjective(a: nat, b: nat)
    ensures GeneratePublicId(a) == GeneratePublicId(b) ==> a == b
  {
    PublicIdRoundTrip(a);
    PublicIdRoundTrip(b);
  }
}
