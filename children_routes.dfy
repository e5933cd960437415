/** backend/routes/children.js: the child account endpoints under
    `/api/children` (register, login, me) and the session ledger written and
    read with a child token (save-session, my-sessions). The authenticated
    handlers receive the `childId` the token middleware attached. */
module ChildrenRoutes {
  import opened Base
  import opened Js
  import opened JsString
  import opened Bcrypt
  import opened Jwt
  import opened AuthUtils
  import opened Schema
  import opened Http
  import Sql
  import opened Db

  // ---------------------------------------------------------------------
  // POST /register
  // ---------------------------------------------------------------------

  /** The fields `/register` destructures from `req.body || {}`. */
  datatype RegisterBody = RegisterBody(
    login: Text,
    password: Text,
    firstName: Text,
    lastName: Text,
    schoolClass: JsValue,
    age: JsValue,
    gender: JsValue)

  /** `{ token, child }`, the body of a successful register or login. */
  datatype ChildAuth = ChildAuth(token: Token, child: ChildProfile)

  predicate RegisterFilled(body: RegisterBody) {
    Filled(body.login) && Filled(body.password) && Filled(body.firstName) && Filled(body.lastName)
  }

  /** `WHERE login = $1` */
  function LoginIs(login: string): ChildRow -> bool {
    (c: ChildRow) => c.login == login
  }

  /** `WHERE id = $1`, with the parameter as the driver binds it. */
  function RowIdIs(id: Option<int>): ChildRow -> bool {
    (c: ChildRow) => id == Some(c.id)
  }

  /** `SELECT id FROM children WHERE login = $1` found a row. */
  predicate LoginTaken(children: seq<ChildRow>, login: string) {
    Sql.FirstWhere(children, LoginIs(login)).Some?
  }

  /** The row a successful registration leaves behind, once its public id
      has replaced the `"temp"` placeholder. Optional columns hold
      `value || null`. */
  function NewChild(id: nat, body: RegisterBody, hash: Digest, grade: JsValue, active: JsValue,
                    createdAt: nat): ChildRow
    requires RegisterFilled(body)
  {
    ChildRow(id, GeneratePublicId(id), body.login.value, hash, body.firstName.value,
             body.lastName.value, OrNull(body.schoolClass), OrNull(body.age), OrNull(body.gender),
             None, grade, active, createdAt)
  }

  /** `POST /api/children/register`, with bcrypt's random salt as `salt` and
      `JWT_EXPIRES` as `jwtExpires`. Missing fields are refused before the
      table is read, a taken login before anything is written; otherwise
      exactly one row is appended and every other row is left as it was. */
  method Register(db: Database, body: RegisterBody, salt: nat, jwtExpires: Text)
    returns (r: Reply<ChildAuth>)
    requires db.Valid()
    modifies db
    ensures db.Valid()
    ensures r.Fail? ==> unchanged(db)
    ensures !RegisterFilled(body) ==> r == Fail(400, "fill_required_fields")
    ensures RegisterFilled(body) && LoginTaken(old(db.children), body.login.value) ==>
              r == Fail(409, "login_taken")
    ensures RegisterFilled(body) && !LoginTaken(old(db.children), body.login.value) ==>
              var row := NewChild(old(db.nextChildId), body, Hash(body.password.value, salt),
                                  db.childGrade, db.childActive, old(db.clock));
              && db.children == old(db.children) + [row]
              && r == Ok(ChildAuth(SignChildToken(row.id, jwtExpires), Profile(row)))
    ensures db.parents == old(db.parents) && db.sessions == old(db.sessions)
    ensures r.Ok? ==> db.nextChildId == old(db.nextChildId) + 1 && db.clock == old(db.clock) + 1
    ensures db.nextParentId == old(db.nextParentId) && db.nextSessionId == old(db.nextSessionId)
  {
    if !RegisterFilled(body) {
      return Fail(400, "fill_required_fields");
    }
    var login := body.login.value;
    if Sql.FirstWhere(db.children, LoginIs(login)).Some? {
      return Fail(409, "login_taken");
    }
    ghost var before := db.children;
    ghost var clock := db.clock;
    var passwordHash := Hash(body.password.value, salt);
    var child := db.InsertChild(login, passwordHash, body.firstName.value, body.lastName.value,
                                OrNull(body.schoolClass), OrNull(body.age), OrNull(body.gender));
    var publicId := GeneratePublicId(child.id);
    db.SetChildPublicId(child.id, publicId);
    child := child.(publicId := publicId);
    var token := SignChildToken(child.id, jwtExpires);
    r := Ok(ChildAuth(token, Profile(child)));

    assert child == NewChild(child.id, body, passwordHash, db.childGrade, db.childActive, child.createdAt);
    assert db.children == before + [child] by {
      forall i | 0 <= i < |before| ensures db.children[i] == before[i] {
        assert before[i].id < child.id;
      }
      assert db.children[|before|] == child;
    }
    forall i | 0 <= i < |before| ensures before[i].login != login {
      assert !LoginIs(login)(before[i]);
    }
    ChildTableAppend(before, child.id, clock, child);
    TablesLater(db.children, db.nextChildId, db.parents, db.nextParentId,
                db.sessions, db.nextSessionId, clock, db.clock);
  }

  // ---------------------------------------------------------------------
  // POST /login
  // ---------------------------------------------------------------------

  /** The fields `/login` destructures from `req.body || {}`. */
  datatype LoginBody = LoginBody(login: Text, password: Text)

  /** `POST /api/children/login`: empty fields, an unknown login and a wrong
      password are three different refusals; on success the token is the
      child's and the row comes back without its password hash. */
  function Login(children: seq<ChildRow>, body: LoginBody, jwtExpires: Text): (r: Reply<ChildAuth>)
    ensures r == Fail(400, "empty_login_or_password") <==> !Filled(body.login) || !Filled(body.password)
    ensures r == Fail(401, "user_not_found") <==>
              Filled(body.login) && Filled(body.password)
              && forall i :: 0 <= i < |children| ==> children[i].login != body.login.value
    ensures r == Fail(401, "wrong_password") ==>
              exists i :: 0 <= i < |children| && children[i].login == body.login.value
                          && !Compare(body.password.value, children[i].passwordHash)
    ensures r.Ok? ==>
              exists i :: 0 <= i < |children| && children[i].login == body.login.value
                          && Compare(body.password.value, children[i].passwordHash)
                          && r.value == ChildAuth(SignChildToken(children[i].id, jwtExpires), Profile(children[i]))
    ensures r.Fail? ==> r.status == 400 || r.error == "user_not_found" || r.error == "wrong_password"
  {
    if !Filled(body.login) || !Filled(body.password) then Fail(400, "empty_login_or_password")
    else
      match Sql.FirstWhere(children, LoginIs(body.login.value))
      case None => Fail(401, "user_not_found")
      case Some(child) =>
        if !Compare(body.password.value, child.passwordHash) then Fail(401, "wrong_password")
        else Ok(ChildAuth(SignChildToken(child.id, jwtExpires), Profile(child)))
  }

  /** With logins unique, as the table keeps them, logging in with a row's
      login succeeds exactly when the password matches that row's hash. */
  lemma LoginOfRow(children: seq<ChildRow>, i: nat, password: string, jwtExpires: Text)
    requires ChildrenOk(children) && i < |children|
    requires children[i].login != "" && password != ""
    ensures Login(children, LoginBody(Some(children[i].login), Some(password)), jwtExpires) ==
              if Compare(password, children[i].passwordHash)
              then Ok(ChildAuth(SignChildToken(children[i].id, jwtExpires), Profile(children[i])))
              else Fail(401, "wrong_password")
  {
    var found := Sql.FirstWhere(children, LoginIs(children[i].login));
    var k :| 0 <= k < |children| && children[k] == found.value;
    assert children[k].login == children[i].login;
  }

  /** A child who has just registered can log in with the same login and
      password, and gets the profile registration returned. */
  lemma LoginAfterRegister(children: seq<ChildRow>, body: RegisterBody, salt: nat,
                           grade: JsValue, active: JsValue, id: nat, createdAt: nat, jwtExpires: Text)
    requires RegisterFilled(body)
    requires !LoginTaken(children, body.login.value)
    ensures var row := NewChild(id, body, Hash(body.password.value, salt), grade, active, createdAt);
            Login(children + [row], LoginBody(body.login, body.password), jwtExpires) ==
              Ok(ChildAuth(SignChildToken(id, jwtExpires), Profile(row)))
  {
    var row := NewChild(id, body, Hash(body.password.value, salt), grade, active, createdAt);
    Sql.FirstWhereAppend(children, row, LoginIs(body.login.value));
  }

  /** Once a login is registered, registering it again is refused. */
  lemma RegisterTwiceConflicts(children: seq<ChildRow>, body: RegisterBody, salt: nat,
                               grade: JsValue, active: JsValue, id: nat, createdAt: nat)
    requires RegisterFilled(body)
    ensures LoginTaken(children + [NewChild(id, body, Hash(body.password.value, salt), grade, active, createdAt)],
                       body.login.value)
  {
    var row := NewChild(id, body, Hash(body.password.value, salt), grade, active, createdAt);
    assert (children + [row])[|children|] == row;
  }

  // ---------------------------------------------------------------------
  // GET /me
  // ---------------------------------------------------------------------

  /** `GET /api/children/me`: the profile of the row whose id the token
      carried, or 404 when there is none (also when the token carried no
      `child_id`). */
  function Me(children: seq<ChildRow>, childId: JsValue): (r: Reply<ChildProfile>)
    ensures r.Ok? ==>
              exists i :: 0 <= i < |children| && AsRowId(childId) == Some(children[i].id)
                          && r.value == Profile(children[i])
    ensures r.Fail? <==> forall i :: 0 <= i < |children| ==> AsRowId(childId) != Some(children[i].id)
    ensures r.Fail? ==> r == Fail(404, "not_found")
  {
    match Sql.FirstWhere(children, RowIdIs(AsRowId(childId)))
    case None => Fail(404, "not_found")
    case Some(child) => Ok(Profile(child))
  }

  /** With ids unique, the token of a registered child reads back its own row. */
  lemma MeOfRow(children: seq<ChildRow>, i: nat)
    requires ChildrenOk(children) && i < |children|
    ensures Me(children, Num(children[i].id)) == Ok(Profile(children[i]))
  {
    var found := Sql.FirstWhere(children, RowIdIs(Some(children[i].id)));
    var k :| 0 <= k < |children| && children[k] == found.value;
    assert children[k].id == children[i].id;
  }

  // ---------------------------------------------------------------------
  // POST /save-session
  // ---------------------------------------------------------------------

  /** The fields `/save-session` destructures from `req.body || {}`. */
  datatype SessionBody = SessionBody(
    mode: Text,
    totalWrong: JsValue,
    totalHints: JsValue,
    totalTimeMs: JsValue,
    tasks: JsValue)

  /** `{ session_id, created_at }` of the inserted row. */
  datatype Saved = Saved(sessionId: nat, createdAt: nat)

  /** The `child_name` snapshot: first and last name of the token's child,
      joined by a blank and trimmed, or null when that child has no row. */
  function ChildNameSnapshot(children: seq<ChildRow>, childId: JsValue): (name: Text)
    ensures name.None? <==> forall i :: 0 <= i < |children| ==> AsRowId(childId) != Some(children[i].id)
    ensures name.Some? ==>
              exists i :: 0 <= i < |children| && AsRowId(childId) == Some(children[i].id)
                          && name.value == Trim(children[i].firstName + " " + children[i].lastName)
    ensures name.Some? ==> IsTrimmed(name.value)
  {
    match Sql.FirstWhere(children, RowIdIs(AsRowId(childId)))
    case None => None
    case Some(child) => Some(Trim(child.firstName + " " + child.lastName))
  }

  /** The row an accepted save appends. */
  function NewSession(id: nat, childId: JsValue, childName: Text, body: SessionBody, createdAt: nat): SessionRow
    requires body.tasks.Arr?
  {
    SessionRow(id, AsRowId(childId), childName, TextOr(body.mode, "multiplication"),
               OrZero(body.totalWrong), OrZero(body.totalHints), OrZero(body.totalTimeMs),
               body.tasks.elems, createdAt)
  }

  /** `POST /api/children/save-session` for the child the token named. A
      `tasks` that is not an array is refused and nothing is written;
      otherwise exactly one row is appended, whether or not the child still
      has a row, `mode` falls back to `"multiplication"` when falsy and each
      total to 0 only when null or absent. */
  method SaveSession(db: Database, childId: JsValue, body: SessionBody) returns (r: Reply<Saved>)
    requires db.Valid()
    modifies db
    ensures db.Valid()
    ensures !body.tasks.Arr? ==> r == Fail(400, "tasks_must_be_array") && unchanged(db)
    ensures body.tasks.Arr? ==>
              var row := NewSession(old(db.nextSessionId), childId,
                                    ChildNameSnapshot(old(db.children), childId), body, old(db.clock));
              && db.sessions == old(db.sessions) + [row]
              && r == Ok(Saved(row.id, row.createdAt))
    ensures db.children == old(db.children) && db.parents == old(db.parents)
    ensures r.Ok? ==> db.nextSessionId == old(db.nextSessionId) + 1 && db.clock == old(db.clock) + 1
    ensures db.nextChildId == old(db.nextChildId) && db.nextParentId == old(db.nextParentId)
  {
    if !body.tasks.Arr? {
      return Fail(400, "tasks_must_be_array");
    }
    var childName := ChildNameSnapshot(db.children, childId);
    var row := db.InsertSession(AsRowId(childId), childName, TextOr(body.mode, "multiplication"),
                                OrZero(body.totalWrong), OrZero(body.totalHints), OrZero(body.totalTimeMs),
                                body.tasks.elems);
    r := Ok(Saved(row.id, row.createdAt));
  }

  /** The snapshot of a registered child is its trimmed full name. */
  lemma SnapshotOfRow(children: seq<ChildRow>, i: nat)
    requires ChildrenOk(children) && i < |children|
    ensures ChildNameSnapshot(children, Num(children[i].id)) ==
              Some(Trim(children[i].firstName + " " + children[i].lastName))
  {
    MeOfRow(children, i);
  }

  // ---------------------------------------------------------------------
  // GET /my-sessions
  // ---------------------------------------------------------------------

  /** `WHERE child_id = $1` */
  function OwnedBy(id: int): SessionRow -> bool {
    (s: SessionRow) => s.childId == Some(id)
  }

  /** The page size of `/my-sessions`. */
  const SessionPage: nat := 20

  /** The rows `/my-sessions` selects: the caller's own sessions, newest
      first, at most twenty; none when the token carried no child id. */
  function MySessionRows(sessions: seq<SessionRow>, childId: JsValue): (r: seq<SessionRow>)
    ensures |r| <= SessionPage
    ensures forall j :: 0 <= j < |r| ==> r[j] in sessions && AsRowId(childId).Some? && r[j].childId == AsRowId(childId)
  {
    match AsRowId(childId)
    case None => []
    case Some(id) =>
      var newest := Sql.NewestFirst(sessions, OwnedBy(id));
      var r := Sql.Limit(newest, SessionPage);
      assert forall j :: 0 <= j < |r| ==> r[j] == newest[j];
      r
  }

  /** On a ledger in insertion order the page is in descending `created_at`
      order, and it holds the newest of the caller's sessions: a session of
      the caller's that is missing is older than every one shown, and only
      when the page is full. */
  lemma MySessionsNewest(sessions: seq<SessionRow>, childId: JsValue)
    requires SessionsOk(sessions)
    ensures Sql.Descending(MySessionRows(sessions, childId), SessionCreated)
    ensures forall i :: 0 <= i < |sessions| && AsRowId(childId).Some? && sessions[i].childId == AsRowId(childId) ==>
              || sessions[i] in MySessionRows(sessions, childId)
              || (&& |MySessionRows(sessions, childId)| == SessionPage
                  && forall j :: 0 <= j < SessionPage ==>
                       sessions[i].createdAt < MySessionRows(sessions, childId)[j].createdAt)
  {
    match AsRowId(childId)
    case None =>
    case Some(id) =>
      Sql.NewestFirstDescending(sessions, OwnedBy(id), SessionCreated);
      Sql.LimitDescending(Sql.NewestFirst(sessions, OwnedBy(id)), SessionCreated, SessionPage);
      forall i | 0 <= i < |sessions| && sessions[i].childId == Some(id)
        ensures || sessions[i] in MySessionRows(sessions, childId)
                || (&& |MySessionRows(sessions, childId)| == SessionPage
                    && forall j :: 0 <= j < SessionPage ==>
                         sessions[i].createdAt < MySessionRows(sessions, childId)[j].createdAt)
      {
        assert OwnedBy(id)(sessions[i]);
        Sql.LimitKeepsNewest(sessions, OwnedBy(id), SessionCreated, SessionPage, sessions[i]);
      }
  }

  /** A session just saved for a child heads that child's page. */
  lemma SaveThenMySessions(sessions: seq<SessionRow>, row: SessionRow, childId: JsValue)
    requires AsRowId(childId).Some? && row.childId == AsRowId(childId)
    ensures MySessionRows(sessions + [row], childId) != []
    ensures MySessionRows(sessions + [row], childId)[0] == row
  {
    var id := AsRowId(childId).value;
    Sql.NewestFirstAppend(sessions, row, OwnedBy(id));
  }

  /** A session saved for anyone else leaves a child's page as it was. */
  lemma OtherSaveKeepsMySessions(sessions: seq<SessionRow>, row: SessionRow, childId: JsValue)
    requires row.childId != AsRowId(childId)
    ensures MySessionRows(sessions + [row], childId) == MySessionRows(sessions, childId)
  {
    match AsRowId(childId)
    case None =>
    case Some(id) =>
      assert !OwnedBy(id)(row);
      Sql.NewestFirstAppend(sessions, row, OwnedBy(id));
      assert [] + Sql.NewestFirst(sessions, OwnedBy(id)) == Sql.NewestFirst(sessions, OwnedBy(id));
  }

  /** One entry of `/my-sessions`: the selected columns. */
  datatype SessionEntry = SessionEntry(
    id: nat,
    mode: string,
    totalWrong: JsValue,
    totalHints: JsValue,
    totalTimeMs: JsValue,
    tasks: seq<JsValue>,
    createdAt: nat)

  function Entry(s: SessionRow): SessionEntry {
    SessionEntry(s.id, s.mode, s.totalWrong, s.totalHints, s.totalTimeMs, s.tasks, s.createdAt)
  }

  /** `GET /api/children/my-sessions`: the selected columns of the page,
      one entry per selected row and in the same order; every entry is one
      of the caller's own sessions. */
  function MySessions(sessions: seq<SessionRow>, childId: JsValue): (r: seq<SessionEntry>)
    ensures |r| == |MySessionRows(sessions, childId)| <= SessionPage
    ensures forall j :: 0 <= j < |r| ==> r[j] == Entry(MySessionRows(sessions, childId)[j])
    ensures forall j :: 0 <= j < |r| ==>
              exists i :: 0 <= i < |sessions| && AsRowId(childId).Some? && sessions[i].childId == AsRowId(childId)
                          && r[j] == Entry(sessions[i])
  {
    var rows := MySessionRows(sessions, childId);
    var r := seq(|rows|, j requires 0 <= j < |rows| => Entry(rows[j]));
    assert forall j :: 0 <= j < |r| ==> r[j] == Entry(rows[j]) && rows[j] in sessions;
    r
  }

  /** On a ledger in insertion order the entries come newest first, and a
      session of the caller's is listed unless the page is full of newer ones. */
  lemma MySessionsListsNewest(sessions: seq<SessionRow>, childId: JsValue)
    requires SessionsOk(sessions)
    ensures forall j, k :: 0 <= j < k < |MySessions(sessions, childId)| ==>
              MySessions(sessions, childId)[j].createdAt > MySessions(sessions, childId)[k].createdAt
    ensures forall i :: 0 <= i < |sessions| && AsRowId(childId).Some? && sessions[i].childId == AsRowId(childId) ==>
              || Entry(sessions[i]) in MySessions(sessions, childId)
              || (&& |MySessions(sessions, childId)| == SessionPage
                  && forall j :: 0 <= j < SessionPage ==>
                       sessions[i].createdAt < MySessions(sessions, childId)[j].createdAt)
  {
    var rows := MySessionRows(sessions, childId);
    var r := MySessions(sessions, childId);
    MySessionsNewest(sessions, childId);
    forall j, k | 0 <= j < k < |r| ensures r[j].createdAt > r[k].createdAt {
      assert SessionCreated(rows[j]) > SessionCreated(rows[k]);
    }
    forall i | 0 <= i < |sessions| && AsRowId(childId).Some? && sessions[i].childId == AsRowId(childId) && sessions[i] in rows
      ensures Entry(sessions[i]) in r
    {
      var j :| 0 <= j < |rows| && rows[j] == sessions[i];
      assert r[j] == Entry(sessions[i]);
    }
  }
}
