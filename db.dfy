/** The relational store the handlers share, with the SQL statements that
    change it. Ids come from per-table sequences and `created_at` from one
    clock that moves forward with every insert. */
module Db {
  import opened Base
  import opened Js
  import opened Bcrypt
  import opened Schema

  class Database {
    var children: seq<ChildRow>
    var parents: seq<ParentRow>
    var sessions: seq<SessionRow>
    var nextChildId: nat
    var nextParentId: nat
    var nextSessionId: nat
    var clock: nat

    /** Column defaults for columns the inserts leave out. */
    const childGrade: JsValue
    const childActive: JsValue
    const parentNotifyChannel: JsValue
    const parentTelegramChatId: JsValue

    ghost predicate Valid()
      reads this
    {
      && ChildTable(children, nextChildId, clock)
      && ParentTable(parents, nextParentId, clock)
      && SessionTable(sessions, nextSessionId, clock)
    }

    /** An empty store whose sequences start at 1. */
    constructor (childGrade: JsValue, childActive: JsValue,
                 parentNotifyChannel: JsValue, parentTelegramChatId: JsValue)
      ensures Valid()
      ensures children == [] && parents == [] && sessions == []
      ensures nextChildId == 1 && nextParentId == 1 && nextSessionId == 1
      ensures this.childGrade == childGrade && this.childActive == childActive
      ensures this.parentNotifyChannel == parentNotifyChannel
      ensures this.parentTelegramChatId == parentTelegramChatId
    {
      children, parents, sessions := [], [], [];
      nextChildId, nextParentId, nextSessionId := 1, 1, 1;
      clock := 1;
      this.childGrade := childGrade;
      this.childActive := childActive;
      this.parentNotifyChannel := parentNotifyChannel;
      this.parentTelegramChatId := parentTelegramChatId;
    }

    /** `INSERT INTO children (public_id, login, password_hash, first_name,
        last_name, class, age, gender) VALUES ('temp', ...) RETURNING ...` */
    method InsertChild(login: string, passwordHash: Digest, firstName: string, lastName: string,
                       schoolClass: JsValue, age: JsValue, gender: JsValue)
      returns (row: ChildRow)
      modifies this
      ensures row == ChildRow(old(nextChildId), "temp", login, passwordHash, firstName, lastName,
                              schoolClass, age, gender, None, childGrade, childActive, old(clock))
      ensures children == old(children) + [row]
      ensures nextChildId == old(nextChildId) + 1 && clock == old(clock) + 1
      ensures parents == old(parents) && sessions == old(sessions)
      ensures nextParentId == old(nextParentId) && nextSessionId == old(nextSessionId)
    {
      row := ChildRow(nextChildId, "temp", login, passwordHash, firstName, lastName,
                      schoolClass, age, gender, None, childGrade, childActive, clock);
      children := children + [row];
      nextChildId := nextChildId + 1;
      clock := clock + 1;
    }

    /** `UPDATE children SET public_id = $1 WHERE id = $2`: every row with
        that id gets the new public id, every other row is left alone. */
    method SetChildPublicId(id: nat, publicId: string)
      modifies this`children
      ensures |children| == |old(children)|
      ensures forall i :: 0 <= i < |children| ==>
        children[i] == if old(children)[i].id == id then old(children)[i].(publicId := publicId)
                       else old(children)[i]
    {
      var updated: seq<ChildRow> := [];
      var i := 0;
      while i < |children|
        invariant 0 <= i <= |children|
        invariant |updated| == i
        invariant forall k :: 0 <= k < i ==>
          updated[k] == if children[k].id == id then children[k].(publicId := publicId) else children[k]
      {
        var row := children[i];
        if row.id == id {
          row := row.(publicId := publicId);
        }
        updated := updated + [row];
        i := i + 1;
      }
      children := updated;
    }

    /** `INSERT INTO session_stats (child_id, child_name, mode, total_wrong,
        total_hints, total_time_ms, tasks) VALUES (...) RETURNING id, created_at` */
    method InsertSession(childId: Option<int>, childName: Text, mode: string,
                         totalWrong: JsValue, totalHints: JsValue, totalTimeMs: JsValue,
                         tasks: seq<JsValue>)
      returns (row: SessionRow)
      requires Valid()
      modifies this
      ensures Valid()
      ensures row == SessionRow(old(nextSessionId), childId, childName, mode,
                                totalWrong, totalHints, totalTimeMs, tasks, old(clock))
      ensures sessions == old(sessions) + [row]
      ensures nextSessionId == old(nextSessionId) + 1 && clock == old(clock) + 1
      ensures children == old(children) && parents == old(parents)
      ensures nextChildId == old(nextChildId) && nextParentId == old(nextParentId)
    {
      row := SessionRow(nextSessionId, childId, childName, mode,
                        totalWrong, totalHints, totalTimeMs, tasks, clock);
      SessionTableAppend(sessions, nextSessionId, clock, row);
      TablesLater(children, nextChildId, parents, nextParentId, sessions, nextSessionId, clock, clock + 1);
      sessions := sessions + [row];
      nextSessionId := nextSessionId + 1;
      clock := clock + 1;
    }

    /** `INSERT INTO parents (email, password_hash, name, phone) VALUES (...)
        RETURNING ...` */
    method InsertParent(email: string, passwordHash: Digest, name: Text, phone: Text)
      returns (row: ParentRow)
      modifies this
      ensures row == ParentRow(old(nextParentId), email, Some(passwordHash), name, phone,
                               parentNotifyChannel, parentTelegramChatId, old(clock), old(clock))
      ensures parents == old(parents) + [row]
      ensures nextParentId == old(nextParentId) + 1 && clock == old(clock) + 1
      ensures children == old(children) && sessions == old(sessions)
      ensures nextChildId == old(nextChildId) && nextSessionId == old(nextSessionId)
    {
      row := ParentRow(nextParentId, email, Some(passwordHash), name, phone,
                       parentNotifyChannel, parentTelegramChatId, clock, clock);
      parents := parents + [row];
      nextParentId := nextParentId + 1;
      clock := clock + 1;
    }
  }
}
