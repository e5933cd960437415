/** backend/middleware/auth.js: the child token middleware. It reads the
    token from the `Authorization` header, verifies it, attaches the
    token's `child_id` to the request and calls `next()`. It checks no
    role. */
module AuthMiddleware {
  import opened Base
  import opened Js
  import opened JsString
  import opened Jwt
  import opened AuthUtils
  import opened Http

  /** The decision of `authMiddleware`: a 401 for a missing token or one
      that does not verify, otherwise the child id to attach. */
  function ChildGate(header: Text, verify: Verifier): (r: Reply<JsValue>)
    ensures r == Fail(401, "no_token") <==> !Filled(HeaderToken(header))
    ensures r == Fail(401, "invalid_token") <==>
              Filled(HeaderToken(header)) && verify(HeaderToken(header).value).None?
    ensures r.Ok? <==> Filled(HeaderToken(header)) && verify(HeaderToken(header).value).Some?
    ensures r.Ok? ==> r.value == verify(HeaderToken(header).value).value.childId
  {
    var token := HeaderToken(header);
    if !Filled(token) then Fail(401, "no_token")
    else match verify(token.value)
      case None => Fail(401, "invalid_token")
      case Some(payload) => Ok(payload.childId)
  }

  /** `authMiddleware(req, res, next)`: on success `req.childId` is set and
      `next()` is called once; on a refusal the request is left untouched. */
  method Authenticate(req: Request, verify: Verifier) returns (r: Reply<JsValue>)
    modifies req
    ensures r == ChildGate(req.authorization, verify)
    ensures r.Ok? ==> req.childId == r.value && req.nextCalls == old(req.nextCalls) + 1
    ensures r.Ok? ==> req.parent == old(req.parent) && req.parentId == old(req.parentId)
    ensures r.Fail? ==> unchanged(req)
  {
    var token := HeaderToken(req.authorization);
    if !Filled(token) {
      return Fail(401, "no_token");
    }
    match verify(token.value)
    case None =>
      return Fail(401, "invalid_token");
    case Some(payload) =>
      req.childId := payload.childId;
      req.nextCalls := req.nextCalls + 1;
      r := Ok(payload.childId);
  }

  /** The scheme word is not read, and any token that verifies passes —
      also one signed for a parent — carrying whatever `child_id` it holds. */
  lemma AnyVerifiedTokenPasses(scheme: string, token: string, verify: Verifier)
    requires ' ' !in scheme && ' ' !in token && token != ""
    requires verify(token).Some?
    ensures ChildGate(Some(scheme + " " + token), verify) == Ok(verify(token).value.childId)
  {
    HeaderTokenOfBearer(scheme, token);
  }

  /** An empty token is a missing one: a header whose first blank is
      followed by another blank or by nothing is refused with `no_token`
      before anything is verified. */
  lemma EmptyTokenIsMissing(scheme: string, rest: string, verify: Verifier)
    requires ' ' !in scheme
    requires rest == [] || rest[0] == ' '
    ensures ChildGate(Some(scheme + " " + rest), verify) == Fail(401, "no_token")
  {
    HeaderTokenOfSpan(scheme, "", rest);
    assert scheme + " " + "" + rest == scheme + " " + rest;
  }

  /** A child token, once verified, yields the id it was signed with. */
  lemma ChildTokenGivesItsChild(scheme: string, token: string, verify: Verifier, childId: nat, jwtExpires: Text)
    requires ' ' !in scheme && ' ' !in token && token != ""
    requires verify(token) == Some(SignChildToken(childId, jwtExpires).claims)
    ensures ChildGate(Some(scheme + " " + token), verify) == Ok(Num(childId))
  {
    AnyVerifiedTokenPasses(scheme, token, verify);
  }
}

/** backend/middleware/parentAuth.js: the parent token middleware. After
    the token checks it demands a parent role and id, looks the parent up,
    and attaches the parent and its id before calling `next()`. */
module ParentAuthMiddleware {
  import opened Base
  import opened Js
  import opened JsString
  import opened Jwt
  import opened AuthUtils
  import opened Schema
  import opened Http
  import opened ParentAuthService

  /** The payload names a parent: role `"parent"` and a truthy `parent_id`. */
  predicate ParentClaims(c: Claims) {
    c.role == Str("parent") && Truthy(c.parentId)
  }

  /** The decision of `parentAuthMiddleware`, in its order: no token (401),
      a token that does not verify (401), a payload that is not a parent's
      (403, before any lookup), a parent id with no row (401), otherwise the
      parent's record. */
  function ParentGate(header: Text, verify: Verifier, parents: seq<ParentRow>): (r: Reply<Parent>)
    ensures r == Fail(401, "no_token") <==> !Filled(HeaderToken(header))
    ensures r == Fail(403, "forbidden") <==>
              Filled(HeaderToken(header)) && verify(HeaderToken(header).value).Some?
              && !ParentClaims(verify(HeaderToken(header).value).value)
    ensures r == Fail(401, "invalid_token") <==>
              Filled(HeaderToken(header))
              && (|| verify(HeaderToken(header).value).None?
                  || (&& ParentClaims(verify(HeaderToken(header).value).value)
                      && GetParentById(parents, verify(HeaderToken(header).value).value.parentId).None?))
    ensures r.Ok? <==>
              && Filled(HeaderToken(header)) && verify(HeaderToken(header).value).Some?
              && ParentClaims(verify(HeaderToken(header).value).value)
              && GetParentById(parents, verify(HeaderToken(header).value).value.parentId).Some?
    ensures r.Fail? ==> r.status == 403 || r.status == 401
    ensures r.Ok? ==>
              && Filled(HeaderToken(header)) && verify(HeaderToken(header).value).Some?
              && ParentClaims(verify(HeaderToken(header).value).value)
              && exists i :: 0 <= i < |parents|
                   && AsRowId(verify(HeaderToken(header).value).value.parentId) == Some(parents[i].id)
                   && r.value == Project(parents[i])
  {
    var token := HeaderToken(header);
    if !Filled(token) then Fail(401, "no_token")
    else match verify(token.value)
      case None => Fail(401, "invalid_token")
      case Some(payload) =>
        if !ParentClaims(payload) then Fail(403, "forbidden")
        else match GetParentById(parents, payload.parentId)
          case None => Fail(401, "invalid_token")
          case Some(parent) => Ok(parent)
  }

  /** `parentAuthMiddleware(req, res, next)`: only on success are
      `req.parent` and `req.parentId` set, to the parent found and its id,
      and `next()` called once; a refusal leaves the request untouched. */
  method AuthenticateParent(req: Request, verify: Verifier, parents: seq<ParentRow>) returns (r: Reply<Parent>)
    modifies req
    ensures r == ParentGate(req.authorization, verify, parents)
    ensures r.Ok? ==> && req.parent == Some(r.value) && req.parentId == Some(r.value.id)
                      && req.nextCalls == old(req.nextCalls) + 1 && req.childId == old(req.childId)
    ensures r.Fail? ==> unchanged(req)
  {
    var token := HeaderToken(req.authorization);
    if !Filled(token) {
      return Fail(401, "no_token");
    }
    match verify(token.value)
    case None =>
      return Fail(401, "invalid_token");
    case Some(payload) =>
      if !ParentClaims(payload) {
        return Fail(403, "forbidden");
      }
      var parent := GetParentById(parents, payload.parentId);
      if parent.None? {
        return Fail(401, "invalid_token");
      }
      req.parent := parent;
      req.parentId := Some(parent.value.id);
      req.nextCalls := req.nextCalls + 1;
      r := Ok(parent.value);
  }

  /** The role is decided before the lookup: a payload that is not a
      parent's is refused the same way whatever the parents table holds. */
  lemma ForbiddenBeforeLookup(header: Text, verify: Verifier, one: seq<ParentRow>, other: seq<ParentRow>)
    requires ParentGate(header, verify, one) == Fail(403, "forbidden")
    ensures ParentGate(header, verify, other) == Fail(403, "forbidden")
  {
  }

  /** A child token is refused by the parent middleware with 403. */
  lemma ChildTokenForbidden(scheme: string, token: string, verify: Verifier, childId: nat,
                            jwtExpires: Text, parents: seq<ParentRow>)
    requires ' ' !in scheme && ' ' !in token && token != ""
    requires verify(token) == Some(SignChildToken(childId, jwtExpires).claims)
    ensures ParentGate(Some(scheme + " " + token), verify, parents) == Fail(403, "forbidden")
  {
    HeaderTokenOfBearer(scheme, token);
  }

  /** A verified parent token whose parent has a row lets that parent in. */
  lemma ParentTokenAdmits(scheme: string, token: string, verify: Verifier, parents: seq<ParentRow>, i: nat)
    requires ' ' !in scheme && ' ' !in token && token != ""
    requires ParentsOk(parents) && i < |parents| && parents[i].id != 0
    requires verify(token) == Some(Claims(Undefined, Num(parents[i].id), Str("parent")))
    ensures ParentGate(Some(scheme + " " + token), verify, parents) == Ok(Project(parents[i]))
  {
    HeaderTokenOfBearer(scheme, token);
    GetParentByIdOfRow(parents, i);
  }
}
