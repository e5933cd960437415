/** backend/index.js: the routes the server declares itself — the public
    profile lookup by public id, and the older name-keyed session ledger
    (`/save-session` and `/last-session-stats`) used without a token. */
module IndexRoutes {
  import opened Base
  import opened Js
  import opened AuthUtils
  import opened Schema
  import opened Http
  import Sql
  import opened Db
  import ChildrenRoutes

  // ---------------------------------------------------------------------
  // GET /api/child/:public_id
  // ---------------------------------------------------------------------

  /** `WHERE public_id = $1` */
  function PublicIdIs(publicId: string): ChildRow -> bool {
    (c: ChildRow) => c.publicId == publicId
  }

  /** `GET /api/child/:public_id`: the profile of the row with that public
      id, without its password hash, or 404 when there is none. */
  function ChildByPublicId(children: seq<ChildRow>, publicId: string): (r: Reply<ChildProfile>)
    ensures r.Ok? ==>
              exists i :: 0 <= i < |children| && children[i].publicId == publicId
                          && r.value == Profile(children[i])
    ensures r.Fail? <==> forall i :: 0 <= i < |children| ==> children[i].publicId != publicId
    ensures r.Fail? ==> r == Fail(404, "Ребёнок не найден")
  {
    match Sql.FirstWhere(children, PublicIdIs(publicId))
    case None => Fail(404, "Ребёнок не найден")
    case Some(child) => Ok(Profile(child))
  }

  /** A child's public id finds that child's own row. */
  lemma ChildByPublicIdOfRow(children: seq<ChildRow>, i: nat)
    requires ChildrenOk(children) && i < |children|
    ensures ChildByPublicId(children, GeneratePublicId(children[i].id)) == Ok(Profile(children[i]))
  {
    var found := Sql.FirstWhere(children, PublicIdIs(GeneratePublicId(children[i].id)));
    var k :| 0 <= k < |children| && children[k] == found.value;
    PublicIdInjective(children[k].id, children[i].id);
    assert children[k].id == children[i].id;
  }

  /** Looking a child up by public id and by the id in its token agree: both
      find the same profile, or neither finds one. */
  lemma PublicIdAgreesWithToken(children: seq<ChildRow>, id: nat)
    requires ChildrenOk(children)
    ensures ChildByPublicId(children, GeneratePublicId(id)).Ok? <==> ChildrenRoutes.Me(children, Num(id)).Ok?
    ensures ChildByPublicId(children, GeneratePublicId(id)).Ok? ==>
              ChildByPublicId(children, GeneratePublicId(id)) == ChildrenRoutes.Me(children, Num(id))
  {
    var me := ChildrenRoutes.Me(children, Num(id));
    if me.Ok? {
      var i :| 0 <= i < |children| && Some(id as int) == Some(children[i].id) && me.value == Profile(children[i]);
      ChildByPublicIdOfRow(children, i);
      ChildrenRoutes.MeOfRow(children, i);
    } else {
      forall i | 0 <= i < |children| ensures children[i].publicId != GeneratePublicId(id) {
        PublicIdInjective(children[i].id, id);
      }
    }
  }

  // ---------------------------------------------------------------------
  // POST /save-session (without a token)
  // ---------------------------------------------------------------------

  /** The fields the legacy `/save-session` destructures from `req.body || {}`. */
  datatype LegacyBody = LegacyBody(
    childName: Text,
    mode: Text,
    totalWrong: JsValue,
    totalHints: JsValue,
    totalTimeMs: JsValue,
    tasks: JsValue)

  /** The minimal validation: a name, a mode and an array of tasks. */
  predicate LegacyAccepted(body: LegacyBody) {
    Filled(body.childName) && Filled(body.mode) && body.tasks.Arr?
  }

  /** The row an accepted legacy save appends: no child id, the name and
      mode as given. */
  function LegacySession(id: nat, body: LegacyBody, createdAt: nat): SessionRow
    requires LegacyAccepted(body)
  {
    SessionRow(id, None, body.childName, body.mode.value,
               OrZero(body.totalWrong), OrZero(body.totalHints), OrZero(body.totalTimeMs),
               body.tasks.elems, createdAt)
  }

  const LegacyFieldsError: string := "Нужны поля: child_name, mode, tasks[]"

  /** `POST /save-session`: refused with nothing written unless the name and
      mode are truthy and `tasks` is an array; otherwise exactly one row is
      appended, with no child id and each total 0 only when null or absent. */
  method SaveSessionLegacy(db: Database, body: LegacyBody) returns (r: Reply<ChildrenRoutes.Saved>)
    requires db.Valid()
    modifies db
    ensures db.Valid()
    ensures !LegacyAccepted(body) ==> r == Fail(400, LegacyFieldsError) && unchanged(db)
    ensures LegacyAccepted(body) ==>
              var row := LegacySession(old(db.nextSessionId), body, old(db.clock));
              && db.sessions == old(db.sessions) + [row]
              && r == Ok(ChildrenRoutes.Saved(row.id, row.createdAt))
    ensures db.children == old(db.children) && db.parents == old(db.parents)
    ensures r.Ok? ==> db.nextSessionId == old(db.nextSessionId) + 1 && db.clock == old(db.clock) + 1
    ensures db.nextChildId == old(db.nextChildId) && db.nextParentId == old(db.nextParentId)
  {
    if !Filled(body.childName) || !Filled(body.mode) || !body.tasks.Arr? {
      return Fail(400, LegacyFieldsError);
    }
    var row := db.InsertSession(None, body.childName, body.mode.value,
                                OrZero(body.totalWrong), OrZero(body.totalHints), OrZero(body.totalTimeMs),
                                body.tasks.elems);
    r := Ok(ChildrenRoutes.Saved(row.id, row.createdAt));
  }

  // ---------------------------------------------------------------------
  // GET /last-session-stats
  // ---------------------------------------------------------------------

  /** The selected columns of `/last-session-stats`. */
  datatype SessionStats = SessionStats(
    childName: Text,
    mode: string,
    totalWrong: JsValue,
    totalHints: JsValue,
    totalTimeMs: JsValue,
    tasks: seq<JsValue>,
    createdAt: nat)

  function Stats(s: SessionRow): SessionStats {
    SessionStats(s.childName, s.mode, s.totalWrong, s.totalHints, s.totalTimeMs, s.tasks, s.createdAt)
  }

  /** `WHERE child_name = $1 AND ($2::text IS NULL OR mode = $2::text)` */
  function NameAndMode(name: string, mode: Text): SessionRow -> bool {
    (s: SessionRow) => s.childName == Some(name) && (mode.None? || s.mode == mode.value)
  }

  /** A session the query asks for: same name, and same mode only when a
      truthy mode was given. */
  predicate Wanted(s: SessionRow, name: string, mode: Text) {
    s.childName == Some(name) && (Filled(mode) ==> s.mode == mode.value)
  }

  /** `GET /last-session-stats?child_name=&mode=`: 400 without a name, 404
      when no session of that name (and mode) exists, otherwise the latest
      such session; never a session with another name. */
  function LastSessionStats(sessions: seq<SessionRow>, childName: Text, mode: Text): (r: Reply<SessionStats>)
    ensures r == Fail(400, "Нужен параметр child_name") <==> !Filled(childName)
    ensures r == Fail(404, "Сессий пока нет") <==>
              Filled(childName) && forall i :: 0 <= i < |sessions| ==> !Wanted(sessions[i], childName.value, mode)
    ensures r.Ok? ==>
              exists i :: 0 <= i < |sessions| && Wanted(sessions[i], childName.value, mode)
                          && r.value == Stats(sessions[i])
  {
    if !Filled(childName) then Fail(400, "Нужен параметр child_name")
    else
      var keep := NameAndMode(childName.value, TextOrNull(mode));
      assert forall i :: 0 <= i < |sessions| ==> (keep(sessions[i]) <==> Wanted(sessions[i], childName.value, mode));
      match Sql.LatestWhere(sessions, keep)
      case None => Fail(404, "Сессий пока нет")
      case Some(row) => Ok(Stats(row))
  }

  /** On a ledger in insertion order the answer is the newest wanted session. */
  lemma LastSessionStatsNewest(sessions: seq<SessionRow>, name: string, mode: Text, i: nat)
    requires SessionsOk(sessions) && name != ""
    requires i < |sessions| && Wanted(sessions[i], name, mode)
    ensures LastSessionStats(sessions, Some(name), mode).Ok?
    ensures sessions[i].createdAt <= LastSessionStats(sessions, Some(name), mode).value.createdAt
  {
    var keep := NameAndMode(name, TextOrNull(mode));
    assert keep(sessions[i]);
    Sql.LatestWhereIsNewest(sessions, keep, SessionCreated, sessions[i]);
  }

  /** A legacy save is what `/last-session-stats` returns next for that name,
      asked with the same mode or with none. */
  lemma LegacySaveThenStats(sessions: seq<SessionRow>, body: LegacyBody, id: nat, createdAt: nat, mode: Text)
    requires LegacyAccepted(body)
    requires !Filled(mode) || mode == body.mode
    ensures LastSessionStats(sessions + [LegacySession(id, body, createdAt)], body.childName, mode) ==
              Ok(Stats(LegacySession(id, body, createdAt)))
  {
    var row := LegacySession(id, body, createdAt);
    var keep := NameAndMode(body.childName.value, TextOrNull(mode));
    Sql.NewestFirstAppend(sessions, row, keep);
  }
}
