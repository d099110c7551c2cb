/**
  The runtime over its pool, its session table and its database, as mutable objects.

  As in BrowserPool, a ghost field holds the abstract state and every method is proved to
  take the step RuntimeSpec describes; what those steps keep is proved there.
 */
module BrowserRuntime {
  import opened Options
  import PoolSpec
  import Sessions
  import opened SessionTable
  import R = RuntimeSpec

  class Runtime {
    const cfg: PoolSpec.Config
    var pool: PoolSpec.State            // the pool as its callers see it
    const store: SessionStore
    const codec: R.Codec
    var jars: map<R.Context, R.Jar>     // the browser's side: what each live context holds

    ghost var history: Sessions.History
    ghost var table: map<string, R.Session>

    /** The session objects hold what table says. */
    ghost predicate Tabled()
      reads this, store, store.byID.Values`state
    {
      && table.Keys == store.byID.Keys
      && (forall id | id in store.byID :: table[id] == store.byID[id].state)
    }

    ghost predicate Valid()
      reads this, store, store.byID.Values
    {
      store.Valid() && Tabled()
    }

    /** sess is the session the table has under its id. */
    ghost predicate Listed(sess: Session)
      reads store
    {
      sess.id in store.byID && store.byID[sess.id] == sess
    }

    ghost function Model(): R.State
      reads this, store, store.Disk()
    {
      R.State(pool, store.Model, history, table, store.Rows(), jars)
    }

    constructor (cfg: PoolSpec.Config, store: SessionStore, codec: R.Codec)
      requires store.Valid() && store.Model == Sessions.EMPTY
      ensures Valid() && this.cfg == cfg && this.store == store && this.codec == codec
      ensures Model() == R.EmptyState(store.Rows())
    {
      this.cfg, this.store, this.codec, pool := cfg, store, codec, PoolSpec.EMPTY;
      jars, table, history := map[], map[], Sessions.NO_HISTORY;
    }

    // ---- the single writes ----

    method Put(sess: Session, v: R.Session)
      requires Valid() && Listed(sess)
      modifies this`table, sess`state
      ensures Valid() && sess.state == v
      ensures Model() == R.SetSession(old(Model()), sess.id, v)
    {
      sess.state := v;
      table := table[sess.id := v];
    }

    method SaveRow(id: string, row: R.Row, ok: bool)
      requires Valid()
      modifies store.Disk()
      ensures Valid() && Model() == R.SaveRow(old(Model()), id, row, ok)
    {
      if store.persist.Some? {
        store.persist.value.Save(id, row, ok);
      }
    }

    method TouchRow(id: string, url: string, now: int, ok: bool)
      requires Valid()
      modifies store.Disk()
      ensures Valid() && Model() == R.TouchRow(old(Model()), id, url, now, ok)
    {
      if store.persist.Some? {
        store.persist.value.Touch(id, url, now, ok);
      }
    }

    /** The pool's Release as one caller sees it. */
    method ReleaseContext(ctx: R.Context)
      requires Valid()
      modifies this`pool, this`jars
      ensures Valid() && Model() == R.ReleaseContext(old(Model()), ctx)
    {
      if ctx in pool.owners && pool.owners[ctx] in pool.procs {
        pool := PoolSpec.ReleaseCount(PoolSpec.ReleaseOwner(pool, ctx), ctx);
        jars := jars - {ctx};
      }
    }

    // ---- Open ----

    method CreateSession(now: int, saveOk: bool) returns (sess: Session)
      requires Valid()
      modifies this`table, this`history, store, store.Disk()
      ensures Valid() && fresh(sess) && store.byID == old(store.byID)[sess.id := sess]
      ensures (Model(), sess.id) == R.CreateSession(old(Model()), now, saveOk)
    {
      history := Sessions.Record(store.Model, history, Sessions.OpCreate);
      sess := store.Create(now, saveOk);
      Enter(sess);
    }

    ghost method Enter(sess: Session)
      requires store.Valid() && Listed(sess) && store.byID.Keys == table.Keys + {sess.id}
      requires forall id | id in store.byID && id != sess.id :: table[id] == store.byID[id].state
      modifies this`table
      ensures Valid() && table == old(table)[sess.id := sess.state]
    {
      table := table[sess.id := sess.state];
    }

    method BindSession(id: string, chat: string)
      requires Valid()
      modifies this`history, store`byChat, store`Model, (if id in store.byID then {store.byID[id]} else {})`chat
      ensures Valid()
      ensures Model() == R.BindSession(old(Model()), id, chat)
    {
      history := Sessions.Record(store.Model, history, Sessions.OpBind(id, chat));
      store.BindChat(id, chat);
    }

    method NewSession(chat: string, now: int, saveOk: bool) returns (sess: Session)
      requires Valid()
      modifies this`table, this`history, store, store.Disk()
      ensures Valid() && fresh(sess) && store.byID == old(store.byID)[sess.id := sess]
      ensures (Model(), sess.id) == R.NewSession(old(Model()), chat, now, saveOk)
    {
      sess := CreateSession(now, saveOk);
      BindSession(sess.id, chat);
    }

    /** A named session, the chat's own session, or a new one if the machine has room for it. */
    method Resolve(req: R.OpenReq, env: R.OpenEnv) returns (r: R.Outcome<string>)
      requires Valid()
      modifies this`table, this`history, store, store.Disk()
      ensures Valid() && fresh(store.byID.Values - old(store.byID.Values))
      ensures (Model(), r) == R.Resolve(old(Model()), req, env)
    {
      if req.sessionId != "" {
        return if req.sessionId in store.byID then R.Done(req.sessionId) else R.NotFound;
      }
      r := ResolveChat(req.chatId, env);
    }

    method FindChat(chat: string) returns (found: Option<Session>)
      requires Valid()
      modifies store
      ensures Valid() && store.byID == old(store.byID)
      ensures var (names, id) := Sessions.FindByChatSession(old(store.Model), chat);
        && Model() == old(Model()).(names := names)
        && found.Some? == (id.Some? && id.value in table)
        && (found.Some? ==> found.value.id == id.value)
    {
      found := store.FindByChatSession(chat);
    }

    method ResolveChat(chat: string, env: R.OpenEnv) returns (r: R.Outcome<string>)
      requires Valid()
      modifies this`table, this`history, store, store.Disk()
      ensures Valid() && fresh(store.byID.Values - old(store.byID.Values))
      ensures (Model(), r) == R.ResolveChat(old(Model()), chat, env)
    {
      var found := FindChat(chat);
      ghost var s1 := Model();
      if found.Some? {
        return R.Done(found.value.id);
      }
      if !env.admitOk {
        return R.Busy;
      }
      var sess := NewSession(chat, env.now, env.saveOk);
      assert (Model(), sess.id) == R.NewSession(s1, chat, env.now, env.saveOk);
      r := R.Done(sess.id);
    }

    /** The stored cookies, as far as database, decoding and browser play along. */
    method LoadJar(id: string, env: R.RebuildEnv) returns (jar: R.Jar)
      requires Valid()
      ensures jar == R.RestoredJar(codec, Model(), id, env)
    {
      jar := [];
      if store.persist.Some? {
        var row := store.persist.value.Get(id, env.getOk);
        if row.Some? && row.value.storage != "" {
          var cookies := R.UnmarshalStorageState(codec, row.value.storage);
          if cookies.Some? && (cookies.value == [] || env.setCookiesOk) {
            jar := cookies.value;
          }
        }
      }
    }

    /** Gets a context for a session that has none and puts the stored cookies into it. */
    method Rebuild(sess: Session, env: R.RebuildEnv) returns (r: PoolSpec.AcquireResult)
      requires Valid() && Listed(sess) && PoolSpec.Grounded(pool)
      modifies this`pool, this`jars, this`table, sess`state, store.Disk()
      ensures Valid()
      ensures (Model(), r) == R.Rebuild(cfg, codec, old(Model()), sess.id, env)
    {
      var jar := LoadJar(sess.id, env);
      var acquired := PoolSpec.Acquire(cfg, pool, env.launch, env.incognitoOk);
      pool, r := acquired.0, acquired.1;
      if !r.Acquired? {
        return;
      }
      jars := jars[r.ctx := jar];
      Put(sess, sess.state.(context := Some(r.ctx)));
      TouchRow(sess.id, sess.state.url, env.now, env.touchOk);
    }

    /** Records a successful action: in memory first, then in the database as far as it works. */
    method Touch(sess: Session, now: int, ok: bool)
      requires Valid() && Listed(sess)
      modifies this`table, sess`state, store.Disk()
      ensures Valid()
      ensures Model() == R.Touch(old(Model()), sess.id, now, ok)
    {
      Put(sess, sess.state.(lastUsed := now));
      TouchRow(sess.id, sess.state.url, now, ok);
    }

    method Navigate(sess: Session, url: string, env: R.OpenEnv) returns (r: R.Outcome<string>)
      requires Valid() && Listed(sess) && sess.state.context.Some?
      modifies this`jars, this`table, sess`state, store.Disk()
      ensures Valid()
      ensures (Model(), r) == R.Navigate(old(Model()), sess.id, url, env)
    {
      if !env.pageOk || !env.loadOk {
        return R.NavigationFailed;
      }
      jars := jars[sess.state.context.value := env.jarAfter];
      Put(sess, sess.state.(hasPage := true, url := url));
      if !env.observeOk {
        return R.ObserveFailed;
      }
      Touch(sess, env.now, env.touchOk);
      r := R.Done(sess.id);
    }

    method Open(req: R.OpenReq, env: R.OpenEnv) returns (r: R.Outcome<string>)
      requires Valid() && PoolSpec.Grounded(pool)
      modifies this`pool, this`jars, this`table, this`history, store, store.byID.Values, store.Disk()
      ensures Valid()
      ensures (Model(), r) == R.Open(cfg, codec, old(Model()), req, env)
    {
      if !env.urlOk {
        return R.UrlRefused;
      }
      r := Resolve(req, env);
      if !r.Done? || r.value !in store.byID {
        return;
      }
      var sess := store.byID[r.value];
      if sess.state.takeover {
        return R.UnderTakeover;
      }
      if sess.state.context.None? {
        var acquired := Rebuild(sess, env.rebuild);
        if !acquired.Acquired? {
          return R.NoContext(acquired);
        }
      }
      r := Navigate(sess, req.url, env);
    }

    // ---- eviction and close ----

    /** Saves the cookies, then gives the context back; on any failure before that, keeps it. */
    method EvictSession(sess: Session, env: R.EvictEnv)
      requires Valid() && Listed(sess)
      modifies this`pool, this`jars, this`table, sess`state, store.Disk()
      ensures Valid()
      ensures Model() == R.Evict(codec, old(Model()), sess.id, env)
    {
      if sess.state.context.None? {
        return;
      }
      var ctx := sess.state.context.value;
      if store.persist.Some? {
        if !env.getCookiesOk {
          return;
        }
        var js := R.MarshalStorageState(codec, if ctx in jars then jars[ctx] else []);
        if js.None? || !env.saveOk {
          return;
        }
        SaveRow(sess.id, R.Row(js.value, sess.state.url, sess.state.lastUsed, true), true);
      }
      Put(sess, sess.state.(context := None, hasPage := false));
      ReleaseContext(ctx);
    }

    method ReapOne(id: string, now: int, ttl: int, env: R.EvictEnv) returns (taken: bool)
      requires Valid() && id in store.byID
      modifies this`pool, this`jars, this`table, store.byID.Values`state, store.Disk()
      ensures Valid()
      ensures taken == R.Idle(old(table)[id], now, ttl)
      ensures Model() == if taken then R.Evict(codec, old(Model()), id, env) else old(Model())
    {
      var sess := store.byID[id];
      taken := !sess.state.takeover && now - sess.state.lastUsed >= ttl;
      if taken {
        EvictSession(sess, env);
      }
    }

    /** One reaper pass over the sessions of a snapshot; a TTL that is not positive switches it off. */
    method ReapIdle(snapshot: seq<string>, now: int, ttl: int, env: string -> R.EvictEnv) returns (reaped: seq<string>)
      requires Valid() && forall id | id in snapshot :: id in store.byID
      modifies this`pool, this`jars, this`table, store.byID.Values`state, store.Disk()
      ensures Valid()
      ensures ttl <= 0 ==> reaped == [] && Model() == old(Model())
      ensures ttl > 0 ==> (Model(), reaped) == R.Reap(codec, old(Model()), snapshot, now, ttl, env)
    {
      reaped := [];
      if ttl <= 0 {
        return;
      }
      ghost var before := Model();
      ghost var all := R.Reap(codec, before, snapshot, now, ttl, env);
      assert snapshot[0..] == snapshot && [] + all.1 == all.1;
      for i := 0 to |snapshot|
        invariant Valid() && store.byID == old(store.byID)
        invariant table.Keys == before.sessions.Keys
        invariant var (s, rest) := R.Reap(codec, Model(), snapshot[i..], now, ttl, env);
                  all == (s, reaped + rest)
      {
        var id := snapshot[i];
        R.ReapNext(codec, Model(), snapshot, i, reaped, now, ttl, env);
        var taken := ReapOne(id, now, ttl, env(id));
        if taken {
          reaped := reaped + [id];
        }
      }
      assert snapshot[|snapshot|..] == [] && reaped + [] == reaped;
    }

    method DeleteSession(id: string, deleteOk: bool)
      requires Valid()
      modifies this`table, this`history, store, store.Disk()
      ensures Valid()
      ensures Model() == R.DeleteSession(old(Model()), id, deleteOk)
    {
      history := Sessions.Record(store.Model, history, Sessions.OpDelete(id));
      table := table - {id};
      store.Delete(id, deleteOk);
    }

    method CloseSession(id: string, deleteOk: bool) returns (r: R.Outcome<()>)
      requires Valid()
      modifies this`pool, this`jars, this`table, this`history, store, store.byID.Values`state, store.Disk()
      ensures Valid()
      ensures id !in old(table) ==> r.NotFound? && Model() == old(Model())
      ensures id in old(table) ==> r.Done? && Model() == R.CloseSession(old(Model()), id, deleteOk)
    {
      if id !in store.byID {
        return R.NotFound;
      }
      var sess := store.byID[id];
      if sess.state.context.Some? {
        ReleaseContext(sess.state.context.value);
      }
      Put(sess, sess.state.(context := None, hasPage := false, takeover := false));
      DeleteSession(id, deleteOk);
      r := R.Done(());
    }

    method SetTakeover(id: string, on: bool) returns (r: R.Outcome<()>)
      requires Valid()
      modifies this`table, store.byID.Values`state
      ensures Valid()
      ensures id !in old(table) ==> r.NotFound? && Model() == old(Model())
      ensures id in old(table) ==> r.Done? && Model() == R.SetSession(old(Model()), id, old(table)[id].(takeover := on))
    {
      if id !in store.byID {
        return R.NotFound;
      }
      Put(store.byID[id], store.byID[id].state.(takeover := on));
      r := R.Done(());
    }
  }
}
