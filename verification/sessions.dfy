/** The session table: numbered ids, and chat bindings that are cleaned up lazily. */
module Sessions {
  import opened Options
  import opened Decimal

  const PREFIX := "sess-"

  function SessionId(n: int): string { PREFIX + Print(n) }

  /** The number in an id of this package's own form; other ids do not take part in numbering. */
  function ParseSessionSeq(id: string): Option<int> {
    if PREFIX <= id then Atoi(id[|PREFIX|..]) else None
  }

  lemma ParseOfSessionId(n: int)
    requires InInt64(n)
    ensures ParseSessionSeq(SessionId(n)) == Some(n)
  {
    AtoiOfPrint(n);
    assert SessionId(n)[|PREFIX|..] == Print(n);
  }

  /** count is st.seq; sessions maps each id in the table to its ChatSessionID. */
  datatype State = State(count: int, sessions: map<string, string>, byChat: map<string, string>)

  const EMPTY := State(0, map[], map[])

  function Create(s: State): (State, string)
    requires InInt64(s.count)
  {
    var n := Wrap(s.count + 1);
    (s.(count := n, sessions := s.sessions[SessionId(n) := ""]), SessionId(n))
  }

  function Adopt(s: State, id: string): State {
    var n := ParseSessionSeq(id);
    s.(sessions := s.sessions[id := ""],
       count := if n.Some? && n.value > s.count then n.value else s.count)
  }

  function BindChat(s: State, id: string, chat: string): State {
    if chat == "" then s
    else
      s.(sessions := if id in s.sessions then s.sessions[id := chat] else s.sessions,
         byChat := s.byChat[chat := id])
  }

  /** A binding to a deleted session is dropped when somebody looks it up. */
  function FindByChatSession(s: State, chat: string): (State, Option<string>) {
    if chat == "" || chat !in s.byChat then (s, None)
    else if s.byChat[chat] !in s.sessions then (s.(byChat := s.byChat - {chat}), None)
    else (s, Some(s.byChat[chat]))
  }

  /** Only the chat the session was last bound to is looked at, and only if it still points here. */
  function Delete(s: State, id: string): State {
    var chat := if id in s.sessions then s.sessions[id] else "";
    s.(byChat := if chat != "" && chat in s.byChat && s.byChat[chat] == id then s.byChat - {chat} else s.byChat,
       sessions := s.sessions - {id})
  }

  // ---- the eager reference: what was ever there, and what each chat was last bound to ----

  datatype History = History(ever: set<string>, bound: map<string, string>)

  const NO_HISTORY := History({}, map[])

  datatype Op =
    | OpAdopt(id: string)
    | OpCreate
    | OpBind(id: string, chat: string)
    | OpFind(chat: string)
    | OpDelete(id: string)

  function Apply(s: State, op: Op): State
    requires InInt64(s.count)
  {
    match op
    case OpAdopt(id) => Adopt(s, id)
    case OpCreate => Create(s).0
    case OpBind(id, chat) => BindChat(s, id, chat)
    case OpFind(chat) => FindByChatSession(s, chat).0
    case OpDelete(id) => Delete(s, id)
  }

  function Record(s: State, h: History, op: Op): History
    requires InInt64(s.count)
  {
    match op
    case OpAdopt(id) => h.(ever := h.ever + {id})
    case OpCreate => h.(ever := h.ever + {Create(s).1})
    case OpBind(id, chat) => if chat == "" then h else h.(bound := h.bound[chat := id])
    case OpFind(_) => h
    case OpDelete(_) => h
  }

  /** Adoption belongs to start-up, before any chat is bound; a binding names an id that was handed out. */
  predicate Enabled(h: History, op: Op) {
    match op
    case OpAdopt(_) => h.bound == map[]
    case OpBind(id, _) => id in h.ever
    case _ => true
  }

  ghost predicate Inv(s: State, h: History) {
    && 0 <= s.count <= MAX_INT64
    && s.sessions.Keys <= h.ever
    && (forall id | id in h.ever :: ParseSessionSeq(id).Some? ==> ParseSessionSeq(id).value <= s.count)
    && (forall c | c in s.byChat :: c in h.bound && h.bound[c] == s.byChat[c])
    && (forall c | c in h.bound :: h.bound[c] in h.ever && (h.bound[c] in s.sessions ==> c in s.byChat))
    && "" !in h.bound
  }

  /** Below the largest 64-bit number, Create's id was never in the table before. */
  lemma CreateIsNew(s: State, h: History)
    requires Inv(s, h) && s.count < MAX_INT64
    ensures Create(s).1 !in h.ever && Create(s).0.count == s.count + 1
  {
    ParseOfSessionId(s.count + 1);
  }

  /** The exact condition: at the largest number the counter wraps, and one single id can collide. */
  lemma CreateIsNewExactly(s: State, h: History)
    requires Inv(s, h)
    ensures Create(s).1 !in h.ever <==> s.count < MAX_INT64 || SessionId(MIN_INT64) !in h.ever
  {
    if s.count < MAX_INT64 {
      CreateIsNew(s, h);
    }
  }

  /** A start-up that adopts two stored ids after which Create hands out one of them again. */
  lemma WrapCollides()
    ensures var s := Adopt(Adopt(EMPTY, SessionId(MAX_INT64)), SessionId(MIN_INT64));
      s.count == MAX_INT64 && Create(s).1 in s.sessions
  {
    ParseOfSessionId(MAX_INT64);
    ParseOfSessionId(MIN_INT64);
  }

  lemma StepKeeps(s: State, h: History, op: Op)
    requires Inv(s, h) && Enabled(h, op)
    requires op.OpCreate? ==> s.count < MAX_INT64
    ensures Inv(Apply(s, op), Record(s, h, op))
  {
    match op
    case OpCreate => CreateIsNew(s, h); ParseOfSessionId(s.count + 1);
    case OpAdopt(id) =>
    case OpBind(id, chat) =>
    case OpFind(chat) =>
    case OpDelete(id) =>
  }

  /** The lazy table answers as an eager one would: the last id bound to the chat, if still there. */
  lemma LazyIsEager(s: State, h: History, chat: string)
    requires Inv(s, h)
    ensures FindByChatSession(s, chat).1 ==
            if chat in h.bound && h.bound[chat] in s.sessions then Some(h.bound[chat]) else None
  {
  }

  /** The first number, and how a number is written into an id. */
  lemma FirstId()
    ensures Create(EMPTY).1 == "sess-1" && forall n: nat :: SessionId(n) == "sess-" + Digits(n)
  {
    assert Print(1) == "1";
  }

  /** A chat once bound leads to that session, and no other chat leads elsewhere for it. */
  lemma BindExactly(s: State, id: string, chat: string, other: string)
    requires id in s.sessions && chat != ""
    ensures FindByChatSession(BindChat(s, id, chat), chat).1 == Some(id)
    ensures other != chat ==> FindByChatSession(BindChat(s, id, chat), other).1 == FindByChatSession(s, other).1
    ensures BindChat(s, id, chat).sessions == s.sessions[id := chat] && BindChat(s, id, "") == s
  {
  }

  /**
    After a deletion the chats lead where they led, but for those that led to the deleted session; the
    binding of the chat it had is gone at once, if it still was its own.
   */
  lemma DeleteExactly(s: State, h: History, id: string, chat: string)
    requires Inv(s, h)
    ensures FindByChatSession(Delete(s, id), chat).1 ==
            var found := FindByChatSession(s, chat).1; if found == Some(id) then None else found
    ensures Delete(s, id).sessions == s.sessions - {id} && Delete(s, id).count == s.count
    ensures chat in Delete(s, id).byChat <==>
            chat in s.byChat && !(id in s.sessions && s.sessions[id] == chat && s.byChat[chat] == id)
  {
    StepKeeps(s, h, OpDelete(id));
    LazyIsEager(s, h, chat);
    LazyIsEager(Delete(s, id), h, chat);
  }

  // ---- whole runs ----

  /** The states and histories ops lead through; numbering has not reached the top before any Create. */
  ghost predicate IsRun(states: seq<State>, histories: seq<History>, ops: seq<Op>) {
    && |states| == |histories| == |ops| + 1
    && states[0] == EMPTY && histories[0] == NO_HISTORY
    && (forall k | 0 <= k < |ops| ::
          Inv(states[k], histories[k]) ==>
            && Enabled(histories[k], ops[k])
            && (ops[k].OpCreate? ==> states[k].count < MAX_INT64)
            && states[k + 1] == Apply(states[k], ops[k])
            && histories[k + 1] == Record(states[k], histories[k], ops[k]))
  }

  lemma {:induction false} RunKeeps(states: seq<State>, histories: seq<History>, ops: seq<Op>, k: nat)
    requires IsRun(states, histories, ops) && k < |states|
    ensures Inv(states[k], histories[k])
  {
    if k == 0 {
    } else {
      RunKeeps(states, histories, ops, k - 1);
      StepKeeps(states[k - 1], histories[k - 1], ops[k - 1]);
    }
  }

  lemma {:induction false} EverGrows(states: seq<State>, histories: seq<History>, ops: seq<Op>, j: nat, k: nat)
    requires IsRun(states, histories, ops) && j <= k < |states|
    ensures histories[j].ever <= histories[k].ever
    decreases k
  {
    if j == k {
    } else {
      EverGrows(states, histories, ops, j, k - 1);
      RunKeeps(states, histories, ops, k - 1);
    }
  }

  /** In any run no id is handed out that was in the table at any earlier point. */
  lemma IdsNeverReused(states: seq<State>, histories: seq<History>, ops: seq<Op>, j: nat, k: nat, id: string)
    requires IsRun(states, histories, ops) && j <= k < |ops| && ops[k].OpCreate?
    requires id in states[j].sessions
    ensures InInt64(states[k].count) && Create(states[k]).1 != id
  {
    RunKeeps(states, histories, ops, j);
    RunKeeps(states, histories, ops, k);
    EverGrows(states, histories, ops, j, k);
    CreateIsNew(states[k], histories[k]);
  }

  /** In any run a lookup returns a session exactly when the chat's last bound id is in the table. */
  lemma LookupInRun(states: seq<State>, histories: seq<History>, ops: seq<Op>, k: nat, chat: string)
    requires IsRun(states, histories, ops) && k < |states|
    ensures FindByChatSession(states[k], chat).1.Some? <==>
            chat in histories[k].bound && histories[k].bound[chat] in states[k].sessions
    ensures FindByChatSession(states[k], chat).1.Some? ==>
            FindByChatSession(states[k], chat).1.value == histories[k].bound[chat]
  {
    RunKeeps(states, histories, ops, k);
    LazyIsEager(states[k], histories[k], chat);
  }

  /** Why a binding must name an id already handed out: one made earlier is lost to a lookup in between. */
  lemma BindingAheadIsLost()
    ensures var chat, id := "chat", SessionId(1);
      var looked := FindByChatSession(BindChat(EMPTY, id, chat), chat).0;
      var s := Create(looked).0;
      id in s.sessions && FindByChatSession(s, chat).1.None?
  {
  }
}
