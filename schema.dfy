/** The rows of the three tables the backend reads and writes (children,
    parents, session_stats), the projections its responses expose, and the
    orderings the store keeps. */
module Schema {
  import opened Base
  import opened Js
  import opened Bcrypt
  import opened AuthUtils
  import Sql

  /** A row of `children`. `grade` and `is_active` are read by the parent
      dashboard but never written by this code. */
  datatype ChildRow = ChildRow(
    id: nat,
    publicId: string,
    login: string,
    passwordHash: Digest,
    firstName: string,
    lastName: string,
    schoolClass: JsValue,
    age: JsValue,
    gender: JsValue,
    parentId: Option<nat>,
    grade: JsValue,
    isActive: JsValue,
    createdAt: nat)

  /** A child as every child-facing response shows it: the selected columns
      `id, public_id, login, first_name, last_name, class, age, gender,
      created_at`. The type has no place for the password hash. */
  datatype ChildProfile = ChildProfile(
    id: nat,
    publicId: string,
    login: string,
    firstName: string,
    lastName: string,
    schoolClass: JsValue,
    age: JsValue,
    gender: JsValue,
    createdAt: nat)

  function Profile(c: ChildRow): ChildProfile {
    ChildProfile(c.id, c.publicId, c.login, c.firstName, c.lastName,
                 c.schoolClass, c.age, c.gender, c.createdAt)
  }

  /** A row of `parents`; the hash may be missing in rows this code did not create. */
  datatype ParentRow = ParentRow(
    id: nat,
    email: string,
    passwordHash: Option<Digest>,
    name: Text,
    phone: Text,
    notifyChannel: JsValue,
    telegramChatId: JsValue,
    createdAt: nat,
    updatedAt: nat)

  /** The parent record the service hands out: every column but the hash. */
  datatype Parent = Parent(
    id: nat,
    email: string,
    name: Text,
    phone: Text,
    notifyChannel: JsValue,
    telegramChatId: JsValue,
    createdAt: nat,
    updatedAt: nat)

  /** A row of `session_stats`. `childId` is null for sessions saved without
      a token; `childName` is a snapshot taken when the row was written. */
  datatype SessionRow = SessionRow(
    id: nat,
    childId: Option<int>,
    childName: Text,
    mode: string,
    totalWrong: JsValue,
    totalHints: JsValue,
    totalTimeMs: JsValue,
    tasks: seq<JsValue>,
    createdAt: nat)

  /** The row a JavaScript value selects when bound to an integer id
      parameter: a number selects the row with that id, `null` and
      `undefined` select none. */
  function AsRowId(v: JsValue): Option<int> {
    if v.Num? then Some(v.n) else None
  }

  function ChildCreated(c: ChildRow): int { c.createdAt }
  function ChildId(c: ChildRow): int { c.id }
  function ParentCreated(p: ParentRow): int { p.createdAt }
  function SessionCreated(s: SessionRow): int { s.createdAt }

  /** Child ids and creation times increase in table order, logins are
      distinct, and every public id is derived from its row's id. */
  predicate ChildrenOk(rows: seq<ChildRow>) {
    && Sql.Ascending(rows, ChildCreated)
    && (forall i, j :: 0 <= i < j < |rows| ==> rows[i].id < rows[j].id && rows[i].login != rows[j].login)
    && (forall i :: 0 <= i < |rows| ==> rows[i].publicId == GeneratePublicId(rows[i].id))
  }

  /** Parent ids and creation times increase in table order and emails are distinct. */
  predicate ParentsOk(rows: seq<ParentRow>) {
    && Sql.Ascending(rows, ParentCreated)
    && (forall i, j :: 0 <= i < j < |rows| ==> rows[i].id < rows[j].id && rows[i].email != rows[j].email)
  }

  /** Session ids and creation times increase in table order. */
  predicate SessionsOk(rows: seq<SessionRow>) {
    && Sql.Ascending(rows, SessionCreated)
    && (forall i, j :: 0 <= i < j < |rows| ==> rows[i].id < rows[j].id)
  }

  /** A row appended with a larger id, a later time, a fresh login and its
      derived public id keeps the children table in order. */
  lemma ChildrenOkAppend(rows: seq<ChildRow>, row: ChildRow)
    requires ChildrenOk(rows)
    requires forall i :: 0 <= i < |rows| ==>
               rows[i].id < row.id && rows[i].createdAt < row.createdAt && rows[i].login != row.login
    requires row.publicId == GeneratePublicId(row.id)
    ensures ChildrenOk(rows + [row])
  {
  }

  /** A row appended with a larger id, a later time and a fresh email keeps
      the parents table in order. */
  lemma ParentsOkAppend(rows: seq<ParentRow>, row: ParentRow)
    requires ParentsOk(rows)
    requires forall i :: 0 <= i < |rows| ==>
               rows[i].id < row.id && rows[i].createdAt < row.createdAt && rows[i].email != row.email
    ensures ParentsOk(rows + [row])
  {
  }

  /** A row appended with a larger id and a later time keeps the ledger in order. */
  lemma SessionsOkAppend(rows: seq<SessionRow>, row: SessionRow)
    requires SessionsOk(rows)
    requires forall i :: 0 <= i < |rows| ==> rows[i].id < row.id && rows[i].createdAt < row.createdAt
    ensures SessionsOk(rows + [row])
  {
  }
  /** The children table in order, with every id below the next one the
      sequence hands out and every row created before `clock`. */
  predicate ChildTable(rows: seq<ChildRow>, nextId: nat, clock: nat) {
    && ChildrenOk(rows)
    && forall i :: 0 <= i < |rows| ==> rows[i].id < nextId && rows[i].createdAt < clock
  }

  predicate ParentTable(rows: seq<ParentRow>, nextId: nat, clock: nat) {
    && ParentsOk(rows)
    && forall i :: 0 <= i < |rows| ==> rows[i].id < nextId && rows[i].createdAt < clock
  }

  predicate SessionTable(rows: seq<SessionRow>, nextId: nat, clock: nat) {
    && SessionsOk(rows)
    && forall i :: 0 <= i < |rows| ==> rows[i].id < nextId && rows[i].createdAt < clock
  }

  /** Appending the row the sequence and the clock stand at, with a fresh
      login and its derived public id, keeps the table valid once both move on. */
  lemma ChildTableAppend(rows: seq<ChildRow>, nextId: nat, clock: nat, row: ChildRow)
    requires ChildTable(rows, nextId, clock)
    requires row.id == nextId && row.createdAt == clock && row.publicId == GeneratePublicId(row.id)
    requires forall i :: 0 <= i < |rows| ==> rows[i].login != row.login
    ensures ChildTable(rows + [row], nextId + 1, clock + 1)
  {
    ChildrenOkAppend(rows, row);
  }

  lemma ParentTableAppend(rows: seq<ParentRow>, nextId: nat, clock: nat, row: ParentRow)
    requires ParentTable(rows, nextId, clock)
    requires row.id == nextId && row.createdAt == clock
    requires forall i :: 0 <= i < |rows| ==> rows[i].email != row.email
    ensures ParentTable(rows + [row], nextId + 1, clock + 1)
  {
    ParentsOkAppend(rows, row);
  }

  lemma SessionTableAppend(rows: seq<SessionRow>, nextId: nat, clock: nat, row: SessionRow)
    requires SessionTable(rows, nextId, clock)
    requires row.id == nextId && row.createdAt == clock
    ensures SessionTable(rows + [row], nextId + 1, clock + 1)
  {
    SessionsOkAppend(rows, row);
  }

  /** A table stays valid when the clock moves forward. */
  lemma TablesLater(children: seq<ChildRow>, nc: nat, parents: seq<ParentRow>, np: nat,
                    sessions: seq<SessionRow>, ns: nat, clock: nat, later: nat)
    requires clock <= later
    ensures ChildTable(children, nc, clock) ==> ChildTable(children, nc, later)
    ensures ParentTable(parents, np, clock) ==> ParentTable(parents, np, later)
    ensures SessionTable(sessions, ns, clock) ==> SessionTable(sessions, ns, later)
  {
  }
}
