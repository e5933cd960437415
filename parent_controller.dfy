/** backend/controllers/parentAuthController.js: the parent endpoints turn
    request bodies and service outcomes into responses. `signParentToken` is
    not part of this model; it is passed in as `sign`. */
module ParentAuthController {
  import opened Base
  import opened Js
  import opened Bcrypt
  import opened Jwt
  import opened Schema
  import opened Http
  import opened Db
  import opened ParentAuthService
  import Sql

  /** The five fields of a parent every parent response shows. */
  datatype ParentView = ParentView(id: nat, email: string, name: Text, phone: Text, notifyChannel: JsValue)

  function View(p: Parent): ParentView {
    ParentView(p.id, p.email, p.name, p.phone, p.notifyChannel)
  }

  /** `{ parent, token }` */
  datatype ParentAuth = ParentAuth(parent: ParentView, token: Token)

  /** `buildAuthResponse(parent)`: the parent's five public fields and a
      token signed for that same parent. */
  function BuildAuthResponse(p: Parent, sign: Parent -> Token): (r: ParentAuth)
    ensures r.token == sign(p)
    ensures r.parent.id == p.id && r.parent.email == p.email
    ensures r.parent.name == p.name && r.parent.phone == p.phone && r.parent.notifyChannel == p.notifyChannel
  {
    ParentAuth(View(p), sign(p))
  }

  /** The response shows nothing of the Telegram chat id or the timestamps:
      parents that differ only there get the same view. */
  lemma ViewHidesPrivateFields(p: Parent, chat: JsValue, createdAt: nat, updatedAt: nat)
    ensures View(p.(telegramChatId := chat, createdAt := createdAt, updatedAt := updatedAt)) == View(p)
  {
  }

  /** The fields `registerParent` and `loginParent` destructure from `req.body || {}`. */
  datatype ParentBody = ParentBody(email: Text, password: Text, name: Text, phone: Text)

  predicate CredentialsGiven(body: ParentBody) {
    Filled(body.email) && Filled(body.password)
  }

  /** How `registerParent` answers an outcome of `createParent`: a taken
      email is a 400 with its own code, any other error a 500. */
  function RegisterOutcomeReply(outcome: Outcome, sign: Parent -> Token): (r: Reply<ParentAuth>)
    ensures outcome.Created? <==> r.Ok?
    ensures r.Ok? ==> r.value == BuildAuthResponse(outcome.parent, sign)
    ensures outcome == Threw("email_in_use") <==> r == Fail(400, "email_in_use")
    ensures outcome.Threw? && outcome.code != "email_in_use" <==> r == Fail(500, "server_error")
  {
    match outcome
    case Created(parent) => Ok(BuildAuthResponse(parent, sign))
    case Threw(code) => if code == "email_in_use" then Fail(400, "email_in_use") else Fail(500, "server_error")
  }

  /** `POST register`: missing credentials are a 400 before the service is
      called; otherwise the service's outcome decides. A new parent gets
      exactly one row and a response for the record created. */
  method RegisterParent(db: Database, body: ParentBody, salt: nat, sign: Parent -> Token)
    returns (r: Reply<ParentAuth>)
    requires db.Valid()
    modifies db
    ensures db.Valid()
    ensures !CredentialsGiven(body) ==> r == Fail(400, "missing_email_or_password") && unchanged(db)
    ensures CredentialsGiven(body) && EmailInUse(old(db.parents), body.email.value) ==>
              r == Fail(400, "email_in_use") && unchanged(db)
    ensures CredentialsGiven(body) && !EmailInUse(old(db.parents), body.email.value) ==>
              var row := NewParent(old(db.nextParentId), body.email.value, Hash(body.password.value, salt),
                                   body.name, body.phone, db.parentNotifyChannel, db.parentTelegramChatId,
                                   old(db.clock));
              && db.parents == old(db.parents) + [row]
              && r == Ok(BuildAuthResponse(Project(row), sign))
    ensures db.children == old(db.children) && db.sessions == old(db.sessions)
    ensures r.Ok? ==> db.nextParentId == old(db.nextParentId) + 1 && db.clock == old(db.clock) + 1
    ensures db.nextChildId == old(db.nextChildId) && db.nextSessionId == old(db.nextSessionId)
  {
    if !Filled(body.email) || !Filled(body.password) {
      return Fail(400, "missing_email_or_password");
    }
    var outcome := CreateParent(db, body.email.value, body.password.value, body.name, body.phone, salt);
    r := RegisterOutcomeReply(outcome, sign);
  }

  /** `POST login`: missing credentials are a 400; credentials the service
      does not accept are one and the same 401, whatever the reason. */
  function LoginParent(parents: seq<ParentRow>, body: ParentBody, sign: Parent -> Token): (r: Reply<ParentAuth>)
    ensures !CredentialsGiven(body) <==> r == Fail(400, "missing_email_or_password")
    ensures r.Fail? ==> r == Fail(400, "missing_email_or_password") || r == Fail(401, "invalid_credentials")
    ensures r.Ok? ==>
              exists i :: 0 <= i < |parents| && parents[i].email == body.email.value
                          && parents[i].passwordHash.Some? && Compare(body.password.value, parents[i].passwordHash.value)
                          && r.value == BuildAuthResponse(Project(parents[i]), sign)
    ensures CredentialsGiven(body) ==>
              (r.Ok? <==> VerifyParentCredentials(parents, body.email.value, body.password.value).Some?)
    ensures r.Ok? ==>
              r.value == BuildAuthResponse(VerifyParentCredentials(parents, body.email.value, body.password.value).value, sign)
  {
    if !Filled(body.email) || !Filled(body.password) then Fail(400, "missing_email_or_password")
    else match VerifyParentCredentials(parents, body.email.value, body.password.value)
      case None => Fail(401, "invalid_credentials")
      case Some(parent) => Ok(BuildAuthResponse(parent, sign))
  }

  /** With emails unique, a row's own email logs in exactly when its hash
      accepts the password, and then the response is built for that row. */
  lemma LoginParentOfRow(parents: seq<ParentRow>, i: nat, password: string, sign: Parent -> Token)
    requires ParentsOk(parents) && i < |parents| && parents[i].email != "" && password != ""
    ensures LoginParent(parents, ParentBody(Some(parents[i].email), Some(password), None, None), sign) ==
              if parents[i].passwordHash.Some? && Compare(password, parents[i].passwordHash.value)
              then Ok(BuildAuthResponse(Project(parents[i]), sign))
              else Fail(401, "invalid_credentials")
  {
    VerifyOfRow(parents, i, password);
  }

  /** An unknown email and a wrong password for a known one get the same
      answer, so the response does not tell which emails are registered. */
  lemma LoginHidesWhichFailed(parents: seq<ParentRow>, i: nat, unknown: string, wrong: string,
                              sign: Parent -> Token)
    requires ParentsOk(parents) && i < |parents| && parents[i].email != ""
    requires unknown != "" && forall k :: 0 <= k < |parents| ==> parents[k].email != unknown
    requires wrong != "" && parents[i].passwordHash.Some? && !Compare(wrong, parents[i].passwordHash.value)
    ensures LoginParent(parents, ParentBody(Some(unknown), Some(wrong), None, None), sign) ==
            LoginParent(parents, ParentBody(Some(parents[i].email), Some(wrong), None, None), sign)
    ensures LoginParent(parents, ParentBody(Some(unknown), Some(wrong), None, None), sign) ==
            Fail(401, "invalid_credentials")
  {
    VerifyOfRow(parents, i, wrong);
  }

  /** A parent who registered can log in with the same email and password
      and gets the same response. */
  lemma LoginAfterRegisterParent(parents: seq<ParentRow>, id: nat, body: ParentBody, salt: nat,
                                 notifyChannel: JsValue, telegramChatId: JsValue, createdAt: nat,
                                 sign: Parent -> Token)
    requires CredentialsGiven(body) && !EmailInUse(parents, body.email.value)
    ensures var row := NewParent(id, body.email.value, Hash(body.password.value, salt), body.name, body.phone,
                                 notifyChannel, telegramChatId, createdAt);
            LoginParent(parents + [row], body, sign) == Ok(BuildAuthResponse(Project(row), sign))
  {
    CreateThenVerify(parents, id, body.email.value, body.password.value, salt, body.name, body.phone,
                     notifyChannel, telegramChatId, createdAt, body.password.value);
  }

  /** The body of `GET me`. */
  datatype ParentMe = ParentMe(parent: ParentView, children: seq<ChildSummary>)

  /** `getMe`: the five public fields of the parent the middleware attached
      and the summaries of exactly that parent's children. */
  function GetMe(children: seq<ChildRow>, parent: Parent): (r: ParentMe)
    ensures r.parent == View(parent)
    ensures r.children == GetChildrenForParent(children, parent.id)
    ensures forall j :: 0 <= j < |r.children| ==>
              exists i :: 0 <= i < |children| && children[i].parentId == Some(parent.id)
                          && r.children[j] == Summary(children[i])
    ensures forall i :: 0 <= i < |children| && children[i].parentId == Some(parent.id) ==>
              Summary(children[i]) in r.children
  {
    var rows := ChildrenOfParent(children, parent.id);
    var summaries := GetChildrenForParent(children, parent.id);
    assert forall j :: 0 <= j < |summaries| ==> summaries[j] == Summary(rows[j]) && rows[j] in children;
    ParentMe(View(parent), summaries)
  }

  /** On a table in insertion order the children come newest first, each
      once: their ids strictly decrease along the list. */
  lemma GetMeNewestFirst(children: seq<ChildRow>, parent: Parent)
    requires ChildrenOk(children)
    ensures forall j, k :: 0 <= j < k < |GetMe(children, parent).children| ==>
              GetMe(children, parent).children[j].id > GetMe(children, parent).children[k].id
  {
    var rows := ChildrenOfParent(children, parent.id);
    var r := GetMe(children, parent).children;
    assert Sql.Ascending(children, ChildId);
    Sql.NewestFirstDescending(children, ChildOf(parent.id), ChildId);
    forall j, k | 0 <= j < k < |r| ensures r[j].id > r[k].id {
      assert ChildId(rows[j]) > ChildId(rows[k]);
    }
  }
}
