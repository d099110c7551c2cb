/** The session table and the session database as the mutable objects they are. */
module SessionTable {
  import opened Options
  import Decimal
  import Sessions
  import R = RuntimeSpec

  /** One browser session: what its own lock guards, and its chat binding, which the table's lock guards. */
  class Session {
    const id: string
    var state: R.Session
    var chat: string

    constructor (id: string, url: string, lastUsed: int)
      ensures this.id == id && chat == "" && state == R.Session(None, false, url, false, lastUsed)
    {
      this.id, state, chat := id, R.Session(None, false, url, false, lastUsed), "";
    }
  }

  /** The session database. Any call may fail; one that fails changes nothing. */
  class Database {
    var rows: map<string, R.Row>

    constructor (rows: map<string, R.Row>)
      ensures this.rows == rows
    {
      this.rows := rows;
    }

    method Save(id: string, row: R.Row, ok: bool)
      modifies this
      ensures rows == if ok then old(rows)[id := row] else old(rows)
    {
      if ok {
        rows := rows[id := row];
      }
    }

    /** Field by field: the stored snapshot is not one of the fields. */
    method Touch(id: string, url: string, now: int, ok: bool)
      modifies this
      ensures rows == if ok && id in old(rows)
                      then old(rows)[id := old(rows)[id].(url := url, lastUsed := now, evicted := false)]
                      else old(rows)
    {
      if ok && id in rows {
        rows := rows[id := rows[id].(url := url, lastUsed := now, evicted := false)];
      }
    }

    method Get(id: string, ok: bool) returns (row: Option<R.Row>)
      ensures row == if ok && id in rows then Some(rows[id]) else None
    {
      row := if ok && id in rows then Some(rows[id]) else None;
    }

    method Delete(id: string, ok: bool)
      modifies this
      ensures rows == if ok then old(rows) - {id} else old(rows)
    {
      if ok {
        rows := rows - {id};
      }
    }
  }

  class SessionStore {
    var count: int
    var byID: map<string, Session>
    var byChat: map<string, string>
    const persist: Option<Database>

    ghost var Model: Sessions.State

    ghost predicate Valid()
      reads this, byID.Values`chat
    {
      && Decimal.InInt64(count) && count == Model.count
      && byChat == Model.byChat
      && byID.Keys == Model.sessions.Keys
      && (forall id | id in byID :: byID[id].id == id && byID[id].chat == Model.sessions[id])
    }

    ghost function Disk(): set<object> { if persist.Some? then {persist.value} else {} }

    ghost function Rows(): Option<map<string, R.Row>>
      reads Disk()
    {
      if persist.Some? then Some(persist.value.rows) else None
    }

    constructor (persist: Option<Database>)
      ensures Valid() && this.persist == persist && Model == Sessions.EMPTY && byID == map[]
    {
      count, byID, byChat := 0, map[], map[];
      this.persist := persist;
      Model := Sessions.EMPTY;
    }

    /** Numbers a new session, puts it in the table and tries to store a first row for it. */
    method Create(now: int, saveOk: bool) returns (sess: Session)
      requires Valid()
      modifies this, Disk()
      ensures Valid() && fresh(sess) && byID == old(byID)[sess.id := sess]
      ensures (Model, sess.id) == Sessions.Create(old(Model))
      ensures sess.state == R.Session(None, false, "", false, now)
      ensures Rows() == if old(Rows()).Some? && saveOk
                        then Some(old(Rows()).value[sess.id := R.Row("", "", now, false)]) else old(Rows())
    {
      count := Decimal.Wrap(count + 1);
      sess := new Session(Sessions.SessionId(count), "", now);
      byID := byID[sess.id := sess];
      Model := Sessions.Create(Model).0;
      if persist.Some? {
        persist.value.Save(sess.id, R.Row("", "", now, false), saveOk);
      }
    }

    /** Loads a stored session and lifts the counter over its number; nothing is written back. */
    method Adopt(id: string, row: R.Row) returns (sess: Session)
      requires Valid()
      modifies this
      ensures Valid() && fresh(sess) && sess.id == id && byID == old(byID)[id := sess]
      ensures Model == Sessions.Adopt(old(Model), id)
      ensures sess.state == R.Session(None, false, row.url, false, row.lastUsed)
    {
      sess := new Session(id, row.url, row.lastUsed);
      byID := byID[id := sess];
      var n := Sessions.ParseSessionSeq(id);
      if n.Some? && n.value > count {
        count := n.value;
      }
      Model := Sessions.Adopt(Model, id);
    }

    method BindChat(id: string, chat: string)
      requires Valid()
      modifies this`byChat, this`Model, (if id in byID then {byID[id]} else {})`chat
      ensures Valid()
      ensures Model == Sessions.BindChat(old(Model), id, chat)
    {
      if chat == "" {
        return;
      }
      if id in byID {
        byID[id].chat := chat;
      }
      byChat := byChat[chat := id];
      Model := Sessions.BindChat(Model, id, chat);
    }

    /** A dangling binding is removed on the way. */
    method FindByChatSession(chat: string) returns (sess: Option<Session>)
      requires Valid()
      modifies this`byChat, this`Model
      ensures Valid()
      ensures Model == Sessions.FindByChatSession(old(Model), chat).0
      ensures var found := Sessions.FindByChatSession(old(Model), chat).1;
        if found.Some? then found.value in byID && sess == Some(byID[found.value]) else sess.None?
    {
      if chat == "" || chat !in byChat {
        return None;
      }
      var id := byChat[chat];
      if id !in byID {
        byChat := byChat - {chat};
        Model := Sessions.FindByChatSession(Model, chat).0;
        return None;
      }
      sess := Some(byID[id]);
    }

    method Delete(id: string, deleteOk: bool)
      requires Valid()
      modifies this`byID, this`byChat, this`Model, Disk()
      ensures Valid() && byID == old(byID) - {id}
      ensures Model == Sessions.Delete(old(Model), id)
      ensures Rows() == if old(Rows()).Some? && deleteOk then Some(old(Rows()).value - {id}) else old(Rows())
    {
      if id in byID {
        var chat := byID[id].chat;
        if chat != "" && chat in byChat && byChat[chat] == id {
          byChat := byChat - {chat};
        }
      }
      byID := byID - {id};
      Model := Sessions.Delete(Model, id);
      if persist.Some? {
        persist.value.Delete(id, deleteOk);
      }
    }
  }
}
