/** backend/services/parentAuthService.js: reading and creating parent
    accounts, checking a parent's credentials, and listing the children
    linked to a parent. */
module ParentAuthService {
  import opened Base
  import opened Js
  import opened Bcrypt
  import opened Schema
  import Sql
  import opened Db

  // ---------------------------------------------------------------------
  // mapParent
  // ---------------------------------------------------------------------

  /** Every column of a parent row but the password hash. */
  function Project(row: ParentRow): Parent {
    Parent(row.id, row.email, row.name, row.phone, row.notifyChannel, row.telegramChatId,
           row.createdAt, row.updatedAt)
  }

  /** The row a parent record and a hash make up. */
  function WithHash(p: Parent, hash: Option<Digest>): ParentRow {
    ParentRow(p.id, p.email, hash, p.name, p.phone, p.notifyChannel, p.telegramChatId,
              p.createdAt, p.updatedAt)
  }

  /** `mapParent(row)`: null for no row, otherwise the row without its hash. */
  function MapParent(row: Option<ParentRow>): (p: Option<Parent>)
    ensures p.None? <==> row.None?
    ensures p.Some? ==> WithHash(p.value, row.value.passwordHash) == row.value
  {
    match row
    case None => None
    case Some(r) => Some(Project(r))
  }

  /** The projection drops the hash and nothing else: rows that differ only
      in their hash map to the same record, and rows that differ elsewhere
      map to different ones. */
  lemma MapParentDropsOnlyHash(a: ParentRow, b: ParentRow)
    ensures MapParent(Some(a)) == MapParent(Some(b)) <==> a.(passwordHash := b.passwordHash) == b
  {
    if MapParent(Some(a)) == MapParent(Some(b)) {
      assert WithHash(Project(a), b.passwordHash) == b;
    }
  }

  // ---------------------------------------------------------------------
  // getParentById, getParentByEmail
  // ---------------------------------------------------------------------

  /** `WHERE id = $1`, with the parameter as the driver binds it. */
  function ParentIdIs(id: Option<int>): ParentRow -> bool {
    (p: ParentRow) => id == Some(p.id)
  }

  /** `WHERE email = $1` */
  function EmailIs(email: string): ParentRow -> bool {
    (p: ParentRow) => p.email == email
  }

  /** `getParentById(id)`: the record of the row with that id, or null. */
  function GetParentById(parents: seq<ParentRow>, id: JsValue): (p: Option<Parent>)
    ensures p.None? <==> forall i :: 0 <= i < |parents| ==> AsRowId(id) != Some(parents[i].id)
    ensures p.Some? ==>
              exists i :: 0 <= i < |parents| && AsRowId(id) == Some(parents[i].id) && p.value == Project(parents[i])
  {
    MapParent(Sql.FirstWhere(parents, ParentIdIs(AsRowId(id))))
  }

  /** With ids unique, a row's id finds that row. */
  lemma GetParentByIdOfRow(parents: seq<ParentRow>, i: nat)
    requires ParentsOk(parents) && i < |parents|
    ensures GetParentById(parents, Num(parents[i].id)) == Some(Project(parents[i]))
  {
    var found := Sql.FirstWhere(parents, ParentIdIs(Some(parents[i].id)));
    var k :| 0 <= k < |parents| && parents[k] == found.value;
    assert parents[k].id == parents[i].id;
  }

  /** What `getParentByEmail` returns: the record and the hash beside it. */
  datatype ParentWithHash = ParentWithHash(parent: Parent, passwordHash: Option<Digest>)

  /** `getParentByEmail(email)`: the record of the row with that email
      together with its hash, or null. */
  function GetParentByEmail(parents: seq<ParentRow>, email: string): (r: Option<ParentWithHash>)
    ensures r.None? <==> forall i :: 0 <= i < |parents| ==> parents[i].email != email
    ensures r.Some? ==>
              exists i :: 0 <= i < |parents| && parents[i].email == email
                          && WithHash(r.value.parent, r.value.passwordHash) == parents[i]
  {
    match Sql.FirstWhere(parents, EmailIs(email))
    case None =>
      assert forall i :: 0 <= i < |parents| ==> !EmailIs(email)(parents[i]);
      None
    case Some(row) => Some(ParentWithHash(Project(row), row.passwordHash))
  }

  // ---------------------------------------------------------------------
  // createParent
  // ---------------------------------------------------------------------

  /** The outcome of `createParent`: the new record, or the code of the
      error it throws. */
  datatype Outcome = Created(parent: Parent) | Threw(code: string)

  /** `SELECT 1 FROM parents WHERE email = $1` found a row. */
  predicate EmailInUse(parents: seq<ParentRow>, email: string) {
    Sql.FirstWhere(parents, EmailIs(email)).Some?
  }

  /** The row a successful `createParent` appends: name and phone hold
      `value || null`, the other columns their defaults. */
  function NewParent(id: nat, email: string, hash: Digest, name: Text, phone: Text,
                     notifyChannel: JsValue, telegramChatId: JsValue, createdAt: nat): ParentRow
  {
    ParentRow(id, email, Some(hash), TextOrNull(name), TextOrNull(phone), notifyChannel,
              telegramChatId, createdAt, createdAt)
  }

  /** `createParent({ email, password, name, phone })`, with bcrypt's random
      salt as `salt`. A taken email throws `email_in_use` before anything is
      hashed or written; otherwise exactly one row is appended and its
      record, without the hash, is returned. */
  method CreateParent(db: Database, email: string, password: string, name: Text, phone: Text, salt: nat)
    returns (r: Outcome)
    requires db.Valid()
    modifies db
    ensures db.Valid()
    ensures EmailInUse(old(db.parents), email) ==> r == Threw("email_in_use") && unchanged(db)
    ensures !EmailInUse(old(db.parents), email) ==>
              var row := NewParent(old(db.nextParentId), email, Hash(password, salt), name, phone,
                                   db.parentNotifyChannel, db.parentTelegramChatId, old(db.clock));
              && db.parents == old(db.parents) + [row]
              && r == Created(Project(row))
    ensures db.children == old(db.children) && db.sessions == old(db.sessions)
    ensures r.Created? ==> db.nextParentId == old(db.nextParentId) + 1 && db.clock == old(db.clock) + 1
    ensures db.nextChildId == old(db.nextChildId) && db.nextSessionId == old(db.nextSessionId)
  {
    if Sql.FirstWhere(db.parents, EmailIs(email)).Some? {
      return Threw("email_in_use");
    }
    ghost var before := db.parents;
    ghost var clock := db.clock;
    var passwordHash := Hash(password, salt);
    var row := db.InsertParent(email, passwordHash, TextOrNull(name), TextOrNull(phone));
    r := Created(MapParent(Some(row)).value);
    forall i | 0 <= i < |before| ensures before[i].email != email {
      assert !EmailIs(email)(before[i]);
    }
    ParentTableAppend(before, row.id, clock, row);
    TablesLater(db.children, db.nextChildId, db.parents, db.nextParentId,
                db.sessions, db.nextSessionId, clock, db.clock);
  }

  // ---------------------------------------------------------------------
  // verifyParentCredentials
  // ---------------------------------------------------------------------

  /** `verifyParentCredentials({ email, password })`: the record of the
      parent with that email when the stored hash accepts the password; the
      same null for an unknown email, a missing hash and a wrong password. */
  function VerifyParentCredentials(parents: seq<ParentRow>, email: string, password: string): (p: Option<Parent>)
    ensures p.Some? ==>
              exists i :: 0 <= i < |parents| && parents[i].email == email
                          && parents[i].passwordHash.Some? && Compare(password, parents[i].passwordHash.value)
                          && p.value == Project(parents[i])
    ensures (forall i :: 0 <= i < |parents| ==> parents[i].email != email) ==> p.None?
  {
    match GetParentByEmail(parents, email)
    case None => None
    case Some(found) =>
      if found.passwordHash.None? then None
      else if !Compare(password, found.passwordHash.value) then None
      else Some(found.parent)
  }

  /** With emails unique, a row's email verifies exactly when that row has a
      hash accepting the password. */
  lemma VerifyOfRow(parents: seq<ParentRow>, i: nat, password: string)
    requires ParentsOk(parents) && i < |parents|
    ensures VerifyParentCredentials(parents, parents[i].email, password) ==
              if parents[i].passwordHash.Some? && Compare(password, parents[i].passwordHash.value)
              then Some(Project(parents[i])) else None
  {
    var found := Sql.FirstWhere(parents, EmailIs(parents[i].email));
    var k :| 0 <= k < |parents| && parents[k] == found.value;
    assert parents[k].email == parents[i].email;
  }

  /** A parent who has just been created is verified with the password given
      at creation, and with no other. */
  lemma CreateThenVerify(parents: seq<ParentRow>, id: nat, email: string, password: string, salt: nat,
                         name: Text, phone: Text, notifyChannel: JsValue, telegramChatId: JsValue,
                         createdAt: nat, attempt: string)
    requires !EmailInUse(parents, email)
    ensures var row := NewParent(id, email, Hash(password, salt), name, phone, notifyChannel, telegramChatId, createdAt);
            VerifyParentCredentials(parents + [row], email, attempt) ==
              if attempt == password then Some(Project(row)) else None
  {
    var row := NewParent(id, email, Hash(password, salt), name, phone, notifyChannel, telegramChatId, createdAt);
    Sql.FirstWhereAppend(parents, row, EmailIs(email));
  }

  // ---------------------------------------------------------------------
  // getChildrenForParent
  // ---------------------------------------------------------------------

  /** The selected columns `id, first_name, last_name, grade, is_active`. */
  datatype ChildSummary = ChildSummary(id: nat, firstName: string, lastName: string,
                                       grade: JsValue, isActive: JsValue)

  function Summary(c: ChildRow): ChildSummary {
    ChildSummary(c.id, c.firstName, c.lastName, c.grade, c.isActive)
  }

  /** `WHERE parent_id = $1` */
  function ChildOf(parentId: nat): ChildRow -> bool {
    (c: ChildRow) => c.parentId == Some(parentId)
  }

  /** The rows `getChildrenForParent(parentId)` selects: exactly the
      children linked to that parent, newest first, with no limit. */
  function ChildrenOfParent(children: seq<ChildRow>, parentId: nat): (r: seq<ChildRow>)
    ensures forall j :: 0 <= j < |r| ==> r[j] in children && r[j].parentId == Some(parentId)
    ensures forall i :: 0 <= i < |children| && children[i].parentId == Some(parentId) ==> children[i] in r
  {
    var r := Sql.NewestFirst(children, ChildOf(parentId));
    assert forall i :: 0 <= i < |children| && children[i].parentId == Some(parentId) ==> ChildOf(parentId)(children[i]);
    r
  }

  /** On a table in insertion order the list is in descending `created_at` order. */
  lemma ChildrenOfParentNewestFirst(children: seq<ChildRow>, parentId: nat)
    requires ChildrenOk(children)
    ensures Sql.Descending(ChildrenOfParent(children, parentId), ChildCreated)
  {
    Sql.NewestFirstDescending(children, ChildOf(parentId), ChildCreated);
  }

  /** `getChildrenForParent(parentId)`: the selected columns of those rows,
      one summary per row and in the same order; the summaries are exactly
      those of the parent's children. */
  function GetChildrenForParent(children: seq<ChildRow>, parentId: nat): (r: seq<ChildSummary>)
    ensures |r| == |ChildrenOfParent(children, parentId)|
    ensures forall j :: 0 <= j < |r| ==> r[j] == Summary(ChildrenOfParent(children, parentId)[j])
    ensures forall j :: 0 <= j < |r| ==>
              exists i :: 0 <= i < |children| && children[i].parentId == Some(parentId) && r[j] == Summary(children[i])
    ensures forall i :: 0 <= i < |children| && children[i].parentId == Some(parentId) ==> Summary(children[i]) in r
  {
    var rows := ChildrenOfParent(children, parentId);
    var r := seq(|rows|, j requires 0 <= j < |rows| => Summary(rows[j]));
    assert forall j :: 0 <= j < |r| ==> r[j] == Summary(rows[j]) && rows[j] in children;
    forall i | 0 <= i < |children| && children[i].parentId == Some(parentId)
      ensures Summary(children[i]) in r
    {
      var j :| 0 <= j < |rows| && rows[j] == children[i];
      assert r[j] == Summary(children[i]);
    }
    r
  }
}
