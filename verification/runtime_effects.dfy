/**
  Which session an operation of the runtime is for, and what it does to that session, to its row and
  to nothing else. Said about the states before and after, field by field.
 */
module RuntimeEffects {
  import opened Options
  import Decimal
  import PoolSpec
  import Sessions
  import opened RuntimeSpec

  // ---- whom an Open is for ----

  /** A new session: under an id that was never there, with a first row, found again by its chat. */
  lemma NewSessionExactly(s: State, chat: string, now: int, saveOk: bool)
    requires Booked(s) && s.names.count < Decimal.MAX_INT64
    ensures var (s1, id) := NewSession(s, chat, now, saveOk);
      && id !in s.history.ever && s1.sessions == s.sessions[id := Session(None, false, "", false, now)]
      && s1.rows == (if s.rows.Some? && saveOk then Some(s.rows.value[id := Row("", "", now, false)]) else s.rows)
      && (chat != "" ==> Sessions.FindByChatSession(s1.names, chat).1 == Some(id))
      && s1.pool == s.pool && s1.jars == s.jars
  {
    Sessions.CreateIsNew(s.names, s.history);
    NewSessionBooked(s, chat, now, saveOk);
  }

  /** The id last bound to the chat of an Open that names no session, if that session is there. */
  predicate ChatHas(s: State, chat: string, id: string) {
    chat in s.history.bound && s.history.bound[chat] == id && id in s.sessions
  }

  /**
    A named session or none; else the session last bound to the chat, with or without a context and
    whatever admission says; else, on admission only, a new one that the chat then leads to.
   */
  lemma ResolveExactly(s: State, req: OpenReq, env: OpenEnv)
    requires Booked(s) && s.names.count < Decimal.MAX_INT64
    ensures var (s1, who) := Resolve(s, req, env);
      var bound := if req.chatId in s.history.bound then Some(s.history.bound[req.chatId]) else None;
      && s1.pool == s.pool && s1.jars == s.jars
      && (who.Done? && who.value in s.sessions ==> s1.sessions == s.sessions && s1.rows == s.rows)
      && (if req.sessionId != "" then
            who == if req.sessionId in s.sessions then Done(req.sessionId) else NotFound
          else if bound.Some? && bound.value in s.sessions then who == Done(bound.value)
          else if !env.admitOk then who == Busy && s1.sessions == s.sessions && s1.rows == s.rows
          else
            && who.Done? && who.value !in s.history.ever
            && s1.sessions == s.sessions[who.value := Session(None, false, "", false, env.now)]
            && (req.chatId != "" ==> Sessions.FindByChatSession(s1.names, req.chatId).1 == Some(who.value)))
  {
    if req.sessionId == "" {
      Sessions.LazyIsEager(s.names, s.history, req.chatId);
      FoundBooked(s, req.chatId);
      var s1 := s.(names := Sessions.FindByChatSession(s.names, req.chatId).0);
      NewSessionExactly(s1, req.chatId, env.now, env.saveOk);
    }
  }

  // ---- what it does ----

  lemma TouchExactly(s: State, id: string, now: int, ok: bool)
    requires id in s.sessions
    ensures var s' := Touch(s, id, now, ok);
      && s'.sessions == s.sessions[id := s.sessions[id].(lastUsed := now)]
      && RowTouched(s, s', id, s.sessions[id].url, now, ok)
      && s'.pool == s.pool && s'.jars == s.jars && s'.names == s.names
  {
  }

  /** Address and time are in the row and it is not marked as evicted; its snapshot and all other rows are as before. */
  predicate RowTouched(s: State, s': State, id: string, url: string, now: int, ok: bool) {
    if s.rows.Some? && id in s.rows.value && ok then
      && s'.rows.Some? && s'.rows.value.Keys == s.rows.value.Keys
      && (forall i | i in s.rows.value && i != id :: s'.rows.value[i] == s.rows.value[i])
      && s'.rows.value[id].url == url && s'.rows.value[id].lastUsed == now && !s'.rows.value[id].evicted
      && s'.rows.value[id].storage == s.rows.value[id].storage
    else s'.rows == s.rows
  }

  /** A page in the session's context: opened and loaded, looked at, or neither. */
  lemma NavigateExactly(s: State, id: string, url: string, env: OpenEnv)
    requires id in s.sessions && s.sessions[id].context.Some?
    ensures var (s', r) := Navigate(s, id, url, env);
      && (r.NavigationFailed? <==> !env.pageOk || !env.loadOk)
      && (r.ObserveFailed? <==> env.pageOk && env.loadOk && !env.observeOk)
      && (r == Done(id) <==> env.pageOk && env.loadOk && env.observeOk)
      && (r.NavigationFailed? ==> s' == s)
      && (!r.NavigationFailed? ==>
            s'.jars == s.jars[s.sessions[id].context.value := env.jarAfter])
      && (r.ObserveFailed? ==>
            s'.sessions == s.sessions[id := s.sessions[id].(hasPage := true, url := url)] && s'.rows == s.rows)
      && (r.Done? ==>
            && s'.sessions == s.sessions[id := s.sessions[id].(hasPage := true, url := url, lastUsed := env.now)]
            && RowTouched(s, s', id, url, env.now, env.touchOk))
      && s'.pool == s.pool && s'.names == s.names
  {
    if env.pageOk && env.loadOk && env.observeOk {
      var s1 := s.(jars := s.jars[s.sessions[id].context.value := env.jarAfter]);
      var s2 := SetSession(s1, id, s1.sessions[id].(hasPage := true, url := url));
      TouchExactly(s2, id, env.now, env.touchOk);
      assert s2.sessions[id := s2.sessions[id].(lastUsed := env.now)]
             == s.sessions[id := s.sessions[id].(hasPage := true, url := url, lastUsed := env.now)];
    }
  }

  /** A context acquired goes to the session, with the stored cookies in it as far as they can be had. */
  lemma RebuildExactly(cfg: PoolSpec.Config, codec: Codec, s: State, id: string, env: RebuildEnv)
    requires id in s.sessions && PoolSpec.Grounded(s.pool)
    ensures var (s', r) := Rebuild(cfg, codec, s, id, env);
      && (s'.pool, r) == PoolSpec.Acquire(cfg, s.pool, env.launch, env.incognitoOk)
      && (!r.Acquired? ==> s' == s.(pool := s'.pool))
      && (r.Acquired? ==>
            && s'.sessions == s.sessions[id := s.sessions[id].(context := Some(r.ctx))]
            && RowTouched(s, s', id, s.sessions[id].url, env.now, env.touchOk)
            && r.ctx in s'.jars && s'.jars == s.jars[r.ctx := s'.jars[r.ctx]]
            && JarRestored(codec, s, id, env, s'.jars[r.ctx]))
      && s'.names == s.names
  {
  }

  /** The cookies a stored snapshot decodes to if database, decoder and browser all play along; otherwise none. */
  predicate JarRestored(codec: Codec, s: State, id: string, env: RebuildEnv, jar: Jar) {
    if s.rows.Some? && id in s.rows.value && env.getOk && s.rows.value[id].storage != ""
       && codec.decode(s.rows.value[id].storage).Some? && env.setCookiesOk
    then jar == codec.decode(s.rows.value[id].storage).value
    else jar == []
  }

  /** An Open, not refused, for a session that is there: its answer and what it leaves. */
  lemma OpenExactly(cfg: PoolSpec.Config, codec: Codec, s: State, req: OpenReq, env: OpenEnv, id: string)
    requires Inv(cfg, s) && Enabled(s, OpOpen(req, env)) && env.urlOk
    requires id in s.sessions && !s.sessions[id].takeover
    requires if req.sessionId != "" then req.sessionId == id else ChatHas(s, req.chatId, id)
    ensures var (s', r) := Open(cfg, codec, s, req, env);
      var acquired := PoolSpec.Acquire(cfg, s.pool, env.rebuild.launch, env.rebuild.incognitoOk).1;
      && id in s'.sessions
      && (r.NoContext? <==> s.sessions[id].context.None? && !acquired.Acquired?)
      && (r == NoContext(acquired) || r.NavigationFailed? || r.ObserveFailed? || r == Done(id))
      && (!r.NoContext? ==>
            && (r.NavigationFailed? <==> !env.pageOk || !env.loadOk)
            && (r.ObserveFailed? <==> env.pageOk && env.loadOk && !env.observeOk)
            && s'.sessions[id].context
               == (if s.sessions[id].context.Some? then s.sessions[id].context else Some(acquired.ctx)))
      && (r.Done? ==> Opened(s, s', id, req.url, env))
  {
    ResolveExactly(s, req, env);
    ResolveKeeps(s, req, env);
    var s1 := Resolve(s, req, env).0;
    if s1.sessions[id].context.Some? {
      NavigateExactly(s1, id, req.url, env);
    } else {
      RebuildExactly(cfg, codec, s1, id, env.rebuild);
      var (s2, r) := Rebuild(cfg, codec, s1, id, env.rebuild);
      if r.Acquired? {
        NavigateExactly(s2, id, req.url, env);
      }
    }
  }

  /** The session has a page at the address, the time of the Open, and still nobody has taken it over. */
  predicate Opened(s: State, s': State, id: string, url: string, env: OpenEnv) {
    && id in s'.sessions && s'.sessions[id].context.Some? && s'.sessions[id].hasPage
    && s'.sessions[id].url == url && s'.sessions[id].lastUsed == env.now && !s'.sessions[id].takeover
    && (s.rows.Some? && id in s.rows.value && env.touchOk ==>
          && s'.rows.Some? && id in s'.rows.value
          && s'.rows.value[id].url == url && s'.rows.value[id].lastUsed == env.now && !s'.rows.value[id].evicted
          && s'.rows.value[id].storage == s.rows.value[id].storage)
  }

  /** A context can be had: the pool has one with room, or may start one and does. */
  predicate CanAcquire(cfg: PoolSpec.Config, pool: PoolSpec.State, env: RebuildEnv) {
    && env.incognitoOk
    && (|| (exists p :: p in pool.instances && p in pool.procs && pool.procs[p].contexts < cfg.maxContexts)
        || (|pool.instances| < cfg.maxProcesses && env.launch.Launched?))
  }

  lemma AcquiresIfItCan(cfg: PoolSpec.Config, pool: PoolSpec.State, env: RebuildEnv)
    requires PoolSpec.Inv(cfg, pool) && !pool.closed && CanAcquire(cfg, pool, env)
    ensures PoolSpec.Acquire(cfg, pool, env.launch, env.incognitoOk).1.Acquired?
  {
    PoolSpec.AcquireExactly(cfg, pool, env.launch, env.incognitoOk);
  }

  lemma ChatOpens(cfg: PoolSpec.Config, codec: Codec, s: State, id: string, req: OpenReq, env: OpenEnv)
    requires Inv(cfg, s) && Enabled(s, OpOpen(req, env)) && req.sessionId == "" && ChatHas(s, req.chatId, id)
    requires !s.sessions[id].takeover && CanAcquire(cfg, s.pool, env.rebuild)
    requires env.urlOk && env.pageOk && env.loadOk && env.observeOk
    ensures var (s', r) := Open(cfg, codec, s, req, env);
      r == Done(id) && Opened(s, s', id, req.url, env)
  {
    AcquiresIfItCan(cfg, s.pool, env.rebuild);
    OpenExactly(cfg, codec, s, req, env, id);
  }

  lemma EvictedStays(cfg: PoolSpec.Config, codec: Codec, rows: map<string, Row>, states: seq<State>, ops: seq<Op>,
                     j: nat, k: nat, id: string)
    requires 0 < cfg.maxProcesses && 0 < cfg.maxContexts && Faithful(codec)
    requires IsRun(cfg, codec, states, ops) && states[0] == EmptyState(Some(rows)) && j < k < |states|
    requires id in states[j].sessions && states[j].sessions[id].context.Some?
    requires ops[j].OpEvict? && ops[j].id == id && ops[j].evictEnv.getCookiesOk && ops[j].evictEnv.saveOk
    requires MarshalStorageState(codec, JarOf(states[j], id)).Some?
    requires forall i | j < i <= k && id in states[i].sessions :: states[i].sessions[id].context.None?
    requires forall i | j < i < k :: !(ops[i].OpClose? && ops[i].id == id)
    ensures id in states[k].sessions
  {
    RunGrounded(cfg, codec, Some(rows), states, ops, j);
    RunKeepsDatabase(cfg, codec, rows, states, ops, j);
    EvictSavesFirst(codec, states[j], id, ops[j].evictEnv);
    RunLeavesParked(cfg, codec, Some(rows), states, ops, j + 1, k, id, states[j + 1].rows.value[id].storage);
  }

  /**
    The session of a chat comes back: evicted, kept without a context, and asked for through its chat
    when everything works and the pool has a context to give, it is that very session that is opened.
   */
  lemma EvictedComesBack(cfg: PoolSpec.Config, codec: Codec, rows: map<string, Row>, states: seq<State>, ops: seq<Op>,
                         j: nat, k: nat, id: string, chat: string, url: string, env: OpenEnv)
    requires 0 < cfg.maxProcesses && 0 < cfg.maxContexts && Faithful(codec)
    requires IsRun(cfg, codec, states, ops) && states[0] == EmptyState(Some(rows)) && j < k < |states|
    requires id in states[j].sessions && states[j].sessions[id].context.Some?
    requires ops[j].OpEvict? && ops[j].id == id && ops[j].evictEnv.getCookiesOk && ops[j].evictEnv.saveOk
    requires MarshalStorageState(codec, JarOf(states[j], id)).Some?
    requires forall i | j < i <= k && id in states[i].sessions :: states[i].sessions[id].context.None?
    requires forall i | j < i < k :: !(ops[i].OpClose? && ops[i].id == id)
    requires chat in states[k].history.bound && states[k].history.bound[chat] == id
    requires id in states[k].sessions ==> !states[k].sessions[id].takeover
    requires Enabled(states[k], OpOpen(OpenReq("", chat, url), env))
    requires env.urlOk && CanAcquire(cfg, states[k].pool, env.rebuild) && env.pageOk && env.loadOk && env.observeOk
    ensures Grounded(states[k])
    ensures var (s', r) := Open(cfg, codec, states[k], OpenReq("", chat, url), env);
      r == Done(id) && Opened(states[k], s', id, url, env)
  {
    EvictedStays(cfg, codec, rows, states, ops, j, k, id);
    RunKeeps(cfg, codec, Some(rows), states, ops, k);
    ChatOpens(cfg, codec, states[k], id, OpenReq("", chat, url), env);
  }

  // ---- takeover ----

  /** Only its own Close, a change of the flag and a stored session of the same id end a takeover. */
  predicate EndsTakeover(op: Op, id: string) {
    (op.OpClose? || op.OpTakeover? || op.OpAdoptSession?) && op.id == id
  }

  lemma StepKeepsTakeover(cfg: PoolSpec.Config, codec: Codec, s: State, op: Op, id: string)
    requires Grounded(s) && Booked(s) && Enabled(s, op)
    requires id in s.sessions && s.sessions[id].takeover && !EndsTakeover(op, id)
    ensures id in Apply(cfg, codec, s, op).sessions && Apply(cfg, codec, s, op).sessions[id].takeover
  {
    if op.OpOpen? {
      OpenRespectsTakeover(cfg, codec, s, op.req, op.env);
    } else if op.OpEvict? {
      EvictOneOnly(codec, s, op.id, op.evictEnv);
    }
  }

  lemma {:induction false} TakeoverLasts(cfg: PoolSpec.Config, codec: Codec, rows: Option<map<string, Row>>,
                                         states: seq<State>, ops: seq<Op>, j: nat, k: nat, id: string)
    requires 0 < cfg.maxProcesses && 0 < cfg.maxContexts
    requires IsRun(cfg, codec, states, ops) && states[0] == EmptyState(rows) && j < k < |states|
    requires id in states[j].sessions && ops[j] == OpTakeover(id, true)
    requires forall i | j < i < k :: !EndsTakeover(ops[i], id)
    ensures id in states[k].sessions && states[k].sessions[id].takeover
    decreases k
  {
    RunGrounded(cfg, codec, rows, states, ops, k - 1);
    if k == j + 1 {
      assert Apply(cfg, codec, states[j], ops[j]).sessions[id].takeover;
    } else {
      TakeoverLasts(cfg, codec, rows, states, ops, j, k - 1, id);
      StepKeepsTakeover(cfg, codec, states[k - 1], ops[k - 1], id);
    }
  }

  /**
    From the moment the user takes a session over until the flag is changed or the session goes, no
    Open gets at it, by name or by chat, and no reaper pass reports or touches it.
   */
  lemma TakenOverIsLeftAlone(cfg: PoolSpec.Config, codec: Codec, rows: Option<map<string, Row>>,
                             states: seq<State>, ops: seq<Op>, j: nat, k: nat, id: string,
                             req: OpenReq, env: OpenEnv,
                             ids: seq<string>, now: int, ttl: int, evict: string -> EvictEnv)
    requires 0 < cfg.maxProcesses && 0 < cfg.maxContexts
    requires IsRun(cfg, codec, states, ops) && states[0] == EmptyState(rows) && j < k < |states|
    requires id in states[j].sessions && ops[j] == OpTakeover(id, true)
    requires forall i | j < i < k :: !EndsTakeover(ops[i], id)
    requires id != "" && (req.sessionId == id || (req.sessionId == "" && ChatHas(states[k], req.chatId, id)))
    requires Enabled(states[k], OpOpen(req, env)) && forall i | i in ids :: i in states[k].sessions
    ensures id in states[k].sessions && Grounded(states[k])
    ensures var (s', r) := Open(cfg, codec, states[k], req, env);
      && (env.urlOk ==> r.UnderTakeover?)
      && id in s'.sessions && s'.sessions[id] == states[k].sessions[id]
    ensures var (s', reaped) := Reap(codec, states[k], ids, now, ttl, evict);
      id !in reaped && id in s'.sessions && s'.sessions[id] == states[k].sessions[id]
  {
    TakeoverLasts(cfg, codec, rows, states, ops, j, k, id);
    RunGrounded(cfg, codec, rows, states, ops, k);
    ResolveExactly(states[k], req, env);
    OpenRespectsTakeover(cfg, codec, states[k], req, env);
    ReapTakesIdleOnly(codec, states[k], ids, now, ttl, evict);
    IdleOnesExactly(states[k], ids, now, ttl, id);
  }

  // ---- leaving and entering the table ----

  /** What a close comes to for the table, the database and the chats, and for the pool and the cookies. */
  lemma CloseParts(s: State, id: string, ok: bool)
    requires id in s.sessions && Decimal.InInt64(s.names.count)
    ensures var s' := CloseSession(s, id, ok);
      && s'.sessions == s.sessions - {id} && s'.names == Sessions.Delete(s.names, id)
      && s'.rows == (if s.rows.Some? && ok then Some(s.rows.value - {id}) else s.rows)
      && match s.sessions[id].context
         case None => s'.pool == s.pool && s'.jars == s.jars
         case Some(ctx) => s'.pool == ReleaseContext(s, ctx).pool && s'.jars == ReleaseContext(s, ctx).jars
  {
  }

  /** The session, its context, its cookies and its row are gone, and no chat leads to it; nobody else has changed. */
  lemma CloseExactly(cfg: PoolSpec.Config, s: State, id: string, ok: bool)
    requires Inv(cfg, s) && id in s.sessions
    ensures var s' := CloseSession(s, id, ok);
      && s'.sessions == s.sessions - {id}
      && s'.rows == (if s.rows.Some? && ok then Some(s.rows.value - {id}) else s.rows)
      && (forall chat :: Sessions.FindByChatSession(s'.names, chat).1 ==
            var found := Sessions.FindByChatSession(s.names, chat).1; if found == Some(id) then None else found)
      && (match s.sessions[id].context
          case None => s'.pool == s.pool && s'.jars == s.jars
          case Some(ctx) => s'.pool.owners == s.pool.owners - {ctx} && s'.jars == s.jars - {ctx})
  {
    CloseParts(s, id, ok);
    if s.sessions[id].context.Some? {
      assert s.sessions[id].context.value in HeldContexts(s.sessions);
      ReleaseOnPool(cfg, s.pool, s.sessions[id].context.value);
    }
    forall chat
      ensures Sessions.FindByChatSession(Sessions.Delete(s.names, id), chat).1 ==
              var found := Sessions.FindByChatSession(s.names, chat).1; if found == Some(id) then None else found
    {
      Sessions.DeleteExactly(s.names, s.history, id, chat);
    }
  }

  /** A stored session is in the table as its row says, without context, page or takeover, and no row is written. */
  lemma AdoptExactly(s: State, id: string, row: Row)
    requires Booked(s) && Enabled(s, OpAdoptSession(id, row))
    ensures var s' := AdoptSession(s, id, row);
      && id in s'.sessions && s'.sessions.Keys == s.sessions.Keys + {id}
      && (forall i | i in s.sessions && i != id :: s'.sessions[i] == s.sessions[i])
      && s'.sessions[id].url == row.url && s'.sessions[id].lastUsed == row.lastUsed
      && s'.sessions[id].context.None? && !s'.sessions[id].hasPage && !s'.sessions[id].takeover
      && s'.rows == s.rows && s'.pool == s.pool && s'.jars == s.jars
  {
  }
}
