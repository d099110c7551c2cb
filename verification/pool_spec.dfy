/**
  The browser process pool as a state machine over its atomic steps.

  One step is what runs under the pool's mutex without letting go of it, so Release is
  two steps (the owner entry goes first, the process's count later) and so is Close (the
  list is taken first, the processes are shut one by one later).
 */
module PoolSpec {
  type Proc = nat

  /** An incognito context: the process that opened it and that process's running number. */
  datatype Context = Context(proc: Proc, number: nat)

  datatype Config = Config(maxProcesses: nat, maxContexts: nat, memoryLimit: nat)

  /** The two non-positive limits fall back to one process and eight contexts. */
  function NewConfig(maxProcesses: int, maxContexts: int, memoryLimit: nat): Config {
    Config(if maxProcesses <= 0 then 1 else maxProcesses,
           if maxContexts <= 0 then 8 else maxContexts,
           memoryLimit)
  }

  datatype Process = Process(contexts: nat, issued: nat)

  datatype State = State(
    instances: seq<Proc>,            // the processes in the pool, in start order
    procs: map<Proc, Process>,       // every process ever started
    owners: map<Context, Proc>,
    releasing: map<Context, Proc>,   // Release has dropped the owner, the count still stands
    closed: bool,
    closing: set<Proc>,              // taken by a Close that has not shut them yet
    dead: set<Proc>)

  const EMPTY := State([], map[], map[], map[], false, {}, {})

  /** What the outside world answers when the pool asks for a new process. */
  datatype Launch = NoFactory | LaunchFailed | Launched(proc: Proc)

  datatype AcquireResult =
    | PoolClosed
    | Exhausted
    | CannotStart
    | ContextFailed
    | Acquired(ctx: Context)

  /** The first process, from position i on, that still has room; |instances| if none has. */
  function FirstFree(cfg: Config, s: State, i: nat): nat
    requires i <= |s.instances|
    requires forall p | p in s.instances :: p in s.procs
    decreases |s.instances| - i
  {
    if i == |s.instances| then i
    else if s.procs[s.instances[i]].contexts < cfg.maxContexts then i
    else FirstFree(cfg, s, i + 1)
  }

  function AcquireOn(s: State, p: Proc, incognitoOk: bool): (State, AcquireResult)
    requires p in s.procs
  {
    if !incognitoOk then (s, ContextFailed)
    else
      var ctx := Context(p, s.procs[p].issued + 1);
      (s.(procs := s.procs[p := Process(s.procs[p].contexts + 1, s.procs[p].issued + 1)],
          owners := s.owners[ctx := p]),
       Acquired(ctx))
  }

  function Started(s: State, p: Proc): State {
    s.(instances := s.instances + [p], procs := s.procs[p := Process(0, 0)])
  }

  function Acquire(cfg: Config, s: State, launch: Launch, incognitoOk: bool): (State, AcquireResult)
    requires forall p | p in s.instances :: p in s.procs
  {
    if s.closed then (s, PoolClosed)
    else
      var i := FirstFree(cfg, s, 0);
      if i < |s.instances| then AcquireOn(s, s.instances[i], incognitoOk)
      else if |s.instances| >= cfg.maxProcesses then (s, Exhausted)
      else if !launch.Launched? then (s, CannotStart)
      else AcquireOn(Started(s, launch.proc), launch.proc, incognitoOk)
  }

  /** First half of Release: forget the owner; an unknown context is left alone. */
  function ReleaseOwner(s: State, ctx: Context): State {
    if ctx in s.owners
    then s.(owners := s.owners - {ctx}, releasing := s.releasing[ctx := s.owners[ctx]])
    else s
  }

  /** Second half: the owning process counts one context less, never below zero. */
  function ReleaseCount(s: State, ctx: Context): State
    requires ctx in s.releasing && s.releasing[ctx] in s.procs
  {
    var p := s.releasing[ctx];
    var before := s.procs[p];
    s.(releasing := s.releasing - {ctx},
       procs := s.procs[p := before.(contexts := if before.contexts > 0 then before.contexts - 1 else 0)])
  }

  /** Only an idle process above the limit is not kept. */
  predicate Keeps(cfg: Config, s: State, mem: map<Proc, nat>, p: Proc)
    requires p in s.procs && p in mem
  {
    s.procs[p].contexts > 0 || mem[p] <= cfg.memoryLimit
  }

  /** The kept processes of a list, in order. */
  function KeptOf(cfg: Config, s: State, mem: map<Proc, nat>, list: seq<Proc>): (kept: seq<Proc>)
    requires forall p | p in list :: p in s.procs && p in mem
  {
    if list == [] then []
    else
      var rest := KeptOf(cfg, s, mem, list[..|list| - 1]);
      if Keeps(cfg, s, mem, list[|list| - 1]) then rest + [list[|list| - 1]] else rest
  }

  function Recycle(cfg: Config, s: State, mem: map<Proc, nat>): State
    requires forall p | p in s.instances :: p in s.procs && p in mem
  {
    if cfg.memoryLimit == 0 then s
    else
      s.(instances := KeptOf(cfg, s, mem, s.instances),
         dead := s.dead + set p | p in s.instances && !Keeps(cfg, s, mem, p))
  }

  /** Takes in a process somebody else started; a closed pool shuts it on the spot. */
  function Adopt(s: State, p: Proc): State {
    if s.closed
    then s.(procs := s.procs[p := Process(0, 0)], dead := s.dead + {p})
    else Started(s, p)
  }

  /** First half of Close: nothing is left in the pool, everything is about to be shut. */
  function BeginClose(s: State): State {
    s.(closed := true, instances := [], owners := map[],
       closing := s.closing + Members(s.instances))
  }

  function CloseOne(s: State, p: Proc): State {
    s.(closing := s.closing - {p}, dead := s.dead + {p})
  }

  datatype Op =
    | OpAcquire(launch: Launch, incognitoOk: bool)
    | OpReleaseOwner(ctx: Context)
    | OpReleaseCount(ctx: Context)
    | OpRecycle(mem: map<Proc, nat>)
    | OpAdopt(proc: Proc)
    | OpBeginClose
    | OpCloseOne(proc: Proc)

  /**
    What the environment may do next: a started process is a new one, and a process is
    adopted only while the pool is empty, as the manager does once at start-up.
   */
  predicate Enabled(s: State, op: Op) {
    match op
    case OpAcquire(launch, _) => launch.Launched? ==> launch.proc !in s.procs
    case OpReleaseOwner(_) => true
    case OpReleaseCount(ctx) => ctx in s.releasing
    case OpRecycle(mem) => forall p | p in s.instances :: p in mem
    case OpAdopt(p) => p !in s.procs && s.instances == []
    case OpBeginClose => true
    case OpCloseOne(p) => p in s.closing
  }

  /** The list and the releases under way name processes that were started. */
  predicate Grounded(s: State) {
    && (forall p | p in s.instances :: p in s.procs)
    && (forall c | c in s.releasing :: s.releasing[c] in s.procs)
  }

  function Apply(cfg: Config, s: State, op: Op): State
    requires Grounded(s) && Enabled(s, op)
  {
    match op
    case OpAcquire(launch, ok) => Acquire(cfg, s, launch, ok).0
    case OpReleaseOwner(ctx) => ReleaseOwner(s, ctx)
    case OpReleaseCount(ctx) => ReleaseCount(s, ctx)
    case OpRecycle(mem) => Recycle(cfg, s, mem)
    case OpAdopt(p) => Adopt(s, p)
    case OpBeginClose => BeginClose(s)
    case OpCloseOne(p) => CloseOne(s, p)
  }

  /** The contexts an owner map gives to one process. */
  function Held(m: map<Context, Proc>, p: Proc): set<Context> {
    set c | c in m && m[c] == p
  }

  function Members(list: seq<Proc>): set<Proc> { set p | p in list }

  ghost predicate Distinct(list: seq<Proc>) {
    forall i, j | 0 <= i < j < |list| :: list[i] != list[j]
  }

  /** The entries name a known process, opened by it, under a number it has given out. */
  ghost predicate Opened(s: State, m: map<Context, Proc>) {
    forall c | c in m :: c.proc == m[c] && m[c] in s.procs && 0 < c.number <= s.procs[m[c]].issued
  }

  /** Every process ever started is in exactly one of: the pool, being closed, closed. */
  ghost predicate Accounted(s: State) {
    var inPool := Members(s.instances);
    && Distinct(s.instances)
    && s.procs.Keys == inPool + s.closing + s.dead
    && inPool !! s.closing && inPool !! s.dead && s.closing !! s.dead
  }

  ghost predicate Counted(cfg: Config, s: State) {
    && (forall p | p in s.procs ::
          && s.procs[p].contexts <= cfg.maxContexts
          && s.procs[p].contexts >= |Held(s.releasing, p)|)
    && (forall p | p in s.instances && p in s.procs ::
          s.procs[p].contexts == |Held(s.owners, p)| + |Held(s.releasing, p)|)
  }

  ghost predicate Inv(cfg: Config, s: State) {
    && 0 < cfg.maxProcesses && 0 < cfg.maxContexts
    && Accounted(s)
    && |s.instances| <= cfg.maxProcesses
    && Opened(s, s.owners) && Opened(s, s.releasing)
    && s.owners.Keys !! s.releasing.Keys
    && (forall c | c in s.owners :: s.owners[c] in s.instances)
    && Counted(cfg, s)
    && (s.closed ==> s.instances == [])
  }

  // ---- counting lemmas ----

  lemma HeldUpdate(m: map<Context, Proc>, c: Context, q: Proc, p: Proc)
    requires c !in m
    ensures |Held(m[c := q], p)| == |Held(m, p)| + if p == q then 1 else 0
  {
    assert Held(m[c := q], p) == Held(m, p) + if p == q then {c} else {};
  }

  lemma HeldRemove(m: map<Context, Proc>, c: Context, p: Proc)
    requires c in m
    ensures |Held(m - {c}, p)| == |Held(m, p)| - if p == m[c] then 1 else 0
  {
    assert Held(m - {c}, p) == Held(m, p) - if p == m[c] then {c} else {};
  }

  lemma {:induction false} FirstFreeFinds(cfg: Config, s: State, i: nat)
    requires i <= |s.instances|
    requires forall p | p in s.instances :: p in s.procs
    ensures i <= FirstFree(cfg, s, i) <= |s.instances|
    ensures FirstFree(cfg, s, i) < |s.instances| ==>
              s.procs[s.instances[FirstFree(cfg, s, i)]].contexts < cfg.maxContexts
    ensures forall j | i <= j < FirstFree(cfg, s, i) :: s.procs[s.instances[j]].contexts >= cfg.maxContexts
    decreases |s.instances| - i
  {
    if i < |s.instances| && s.procs[s.instances[i]].contexts >= cfg.maxContexts {
      FirstFreeFinds(cfg, s, i + 1);
    }
  }

  // ---- every step keeps the invariant ----

  lemma StartedKeeps(cfg: Config, s: State, p: Proc)
    requires Inv(cfg, s) && p !in s.procs && !s.closed && |s.instances| < cfg.maxProcesses
    ensures Inv(cfg, Started(s, p))
  {
    var s' := Started(s, p);
    assert Members(s'.instances) == Members(s.instances) + {p};
    assert Held(s.owners, p) == {} && Held(s.releasing, p) == {};
  }

  lemma AcquireOnCounts(cfg: Config, s: State, p: Proc, q: Proc)
    requires Inv(cfg, s) && p in s.instances && s.procs[p].contexts < cfg.maxContexts && q in s.procs
    ensures var s' := AcquireOn(s, p, true).0;
      && q in s'.procs && s'.procs[q].contexts <= cfg.maxContexts
      && s'.procs[q].contexts >= |Held(s'.releasing, q)|
      && (q in s.instances ==> s'.procs[q].contexts == |Held(s'.owners, q)| + |Held(s'.releasing, q)|)
  {
    var ctx := Context(p, s.procs[p].issued + 1);
    assert ctx !in s.owners;
    HeldUpdate(s.owners, ctx, p, q);
  }

  lemma AcquireOnKeeps(cfg: Config, s: State, p: Proc, ok: bool)
    requires Inv(cfg, s) && p in s.instances && s.procs[p].contexts < cfg.maxContexts
    ensures Inv(cfg, AcquireOn(s, p, ok).0)
  {
    if ok {
      var s' := AcquireOn(s, p, ok).0;
      assert s'.procs.Keys == s.procs.Keys;
      forall q | q in s.procs
        ensures && s'.procs[q].contexts <= cfg.maxContexts
                && s'.procs[q].contexts >= |Held(s'.releasing, q)|
                && (q in s.instances ==> s'.procs[q].contexts == |Held(s'.owners, q)| + |Held(s'.releasing, q)|)
      {
        AcquireOnCounts(cfg, s, p, q);
      }
      assert Counted(cfg, s');
    }
  }

  lemma AcquireKeeps(cfg: Config, s: State, launch: Launch, ok: bool)
    requires Inv(cfg, s) && Enabled(s, OpAcquire(launch, ok))
    ensures Inv(cfg, Acquire(cfg, s, launch, ok).0)
  {
    FirstFreeFinds(cfg, s, 0);
    var i := FirstFree(cfg, s, 0);
    if s.closed {
    } else if i < |s.instances| {
      AcquireOnKeeps(cfg, s, s.instances[i], ok);
    } else if |s.instances| < cfg.maxProcesses && launch.Launched? {
      StartedKeeps(cfg, s, launch.proc);
      AcquireOnKeeps(cfg, Started(s, launch.proc), launch.proc, ok);
    }
  }

  lemma ReleaseOwnerKeeps(cfg: Config, s: State, ctx: Context)
    requires Inv(cfg, s)
    ensures Inv(cfg, ReleaseOwner(s, ctx))
  {
    if ctx in s.owners {
      forall p | p in s.procs
        ensures |Held(s.owners - {ctx}, p)| + |Held(s.releasing[ctx := s.owners[ctx]], p)|
             == |Held(s.owners, p)| + |Held(s.releasing, p)|
        ensures p !in s.instances ==>
             |Held(s.releasing[ctx := s.owners[ctx]], p)| == |Held(s.releasing, p)|
      {
        HeldRemove(s.owners, ctx, p);
        HeldUpdate(s.releasing, ctx, s.owners[ctx], p);
      }
    }
  }

  lemma ReleaseCountKeeps(cfg: Config, s: State, ctx: Context)
    requires Inv(cfg, s) && ctx in s.releasing
    ensures Inv(cfg, ReleaseCount(s, ctx))
  {
    var p := s.releasing[ctx];
    assert ctx in Held(s.releasing, p);
    forall q | q in s.procs
      ensures |Held(s.releasing - {ctx}, q)| == |Held(s.releasing, q)| - if q == p then 1 else 0
    {
      HeldRemove(s.releasing, ctx, q);
    }
    assert |Held(s.releasing, p)| > 0;
  }

  lemma DistinctInit(list: seq<Proc>)
    requires list != [] && Distinct(list)
    ensures var init, last := list[..|list| - 1], list[|list| - 1];
      Distinct(init) && last !in init && forall p :: p in list <==> p in init || p == last
  {
    assert list == list[..|list| - 1] + [list[|list| - 1]];
  }

  lemma DistinctMore(list: seq<Proc>, p: Proc)
    requires Distinct(list) && p !in list
    ensures Distinct(list + [p])
  {
  }

  lemma {:induction false} KeptIsFilter(cfg: Config, s: State, mem: map<Proc, nat>, list: seq<Proc>)
    requires forall p | p in list :: p in s.procs && p in mem
    requires Distinct(list)
    ensures Distinct(KeptOf(cfg, s, mem, list))
    ensures |KeptOf(cfg, s, mem, list)| <= |list|
    ensures forall p :: p in KeptOf(cfg, s, mem, list) <==> p in list && Keeps(cfg, s, mem, p)
  {
    if list == [] {
    } else {
      DistinctInit(list);
      KeptIsFilter(cfg, s, mem, list[..|list| - 1]);
      if Keeps(cfg, s, mem, list[|list| - 1]) {
        DistinctMore(KeptOf(cfg, s, mem, list[..|list| - 1]), list[|list| - 1]);
      }
    }
  }

  /** ... and the kept ones stand in the order they had: at gives their old positions. */
  lemma {:induction false} KeptInOrder(cfg: Config, s: State, mem: map<Proc, nat>, list: seq<Proc>)
    returns (at: seq<nat>)
    requires forall p | p in list :: p in s.procs && p in mem
    ensures |at| == |KeptOf(cfg, s, mem, list)|
    ensures forall k | 0 <= k < |at| :: at[k] < |list| && list[at[k]] == KeptOf(cfg, s, mem, list)[k]
    ensures forall j, k | 0 <= j < k < |at| :: at[j] < at[k]
  {
    at := [];
    if list == [] {
    } else {
      at := KeptInOrder(cfg, s, mem, list[..|list| - 1]);
      if Keeps(cfg, s, mem, list[|list| - 1]) {
        at := at + [|list| - 1];
      }
    }
  }

  lemma RecycleKeeps(cfg: Config, s: State, mem: map<Proc, nat>)
    requires Inv(cfg, s) && Enabled(s, OpRecycle(mem))
    ensures Inv(cfg, Recycle(cfg, s, mem))
  {
    if cfg.memoryLimit != 0 {
      var s' := Recycle(cfg, s, mem);
      KeptIsFilter(cfg, s, mem, s.instances);
      assert Members(s.instances) ==
             Members(s'.instances) + (set p | p in s.instances && !Keeps(cfg, s, mem, p));
      forall c | c in s.owners ensures s.owners[c] in s'.instances {
        assert c in Held(s.owners, s.owners[c]);
      }
    }
  }

  lemma CloseKeeps(cfg: Config, s: State, p: Proc)
    requires Inv(cfg, s)
    ensures Inv(cfg, BeginClose(s))
    ensures p in s.closing ==> Inv(cfg, CloseOne(s, p))
  {
  }

  lemma AdoptKeeps(cfg: Config, s: State, p: Proc)
    requires Inv(cfg, s) && Enabled(s, OpAdopt(p))
    ensures Inv(cfg, Adopt(s, p))
    ensures Adopt(s, p).instances == (if s.closed then [] else [p]) && (p in Adopt(s, p).dead <==> s.closed)
    ensures p in Adopt(s, p).procs && Adopt(s, p).procs[p].contexts == 0
  {
    if s.closed {
      assert Held(s.releasing, p) == {};
    } else {
      StartedKeeps(cfg, s, p);
    }
  }

  lemma StepKeeps(cfg: Config, s: State, op: Op)
    requires Inv(cfg, s) && Enabled(s, op)
    ensures Inv(cfg, Apply(cfg, s, op))
  {
    match op
    case OpAcquire(launch, ok) => AcquireKeeps(cfg, s, launch, ok);
    case OpReleaseOwner(ctx) => ReleaseOwnerKeeps(cfg, s, ctx);
    case OpReleaseCount(ctx) => ReleaseCountKeeps(cfg, s, ctx);
    case OpRecycle(mem) => RecycleKeeps(cfg, s, mem);
    case OpAdopt(p) => AdoptKeeps(cfg, s, p);
    case OpBeginClose => CloseKeeps(cfg, s, 0);
    case OpCloseOne(p) => CloseKeeps(cfg, s, p);
  }

  // ---- whole runs ----

  /** states[k + 1] is what ops[k] makes of states[k]. */
  ghost predicate IsRun(cfg: Config, states: seq<State>, ops: seq<Op>) {
    && |states| == |ops| + 1
    && (forall k | 0 <= k < |ops| ::
          Grounded(states[k]) ==> Enabled(states[k], ops[k]) && states[k + 1] == Apply(cfg, states[k], ops[k]))
  }

  /** Any interleaving of the steps, from the empty pool, keeps the accounting. */
  lemma {:induction false} RunKeeps(cfg: Config, states: seq<State>, ops: seq<Op>, k: nat)
    requires 0 < cfg.maxProcesses && 0 < cfg.maxContexts
    requires IsRun(cfg, states, ops) && states[0] == EMPTY && k < |states|
    ensures Inv(cfg, states[k])
  {
    if k == 0 {
    } else {
      RunKeeps(cfg, states, ops, k - 1);
      StepKeeps(cfg, states[k - 1], ops[k - 1]);
    }
  }

  lemma OneShareMore(n: nat, max: nat, total: nat, share: nat)
    requires total <= n * max && share <= max
    ensures total + share <= (n + 1) * max
  {
  }

  /** Contexts split by process: no more than processes times the largest share. */
  lemma {:induction false} SharesBounded(owners: map<Context, Proc>, ps: set<Proc>, max: nat)
    requires forall p | p in ps :: |Held(owners, p)| <= max
    ensures |(set c | c in owners && owners[c] in ps)| <= |ps| * max
  {
    var all := set c | c in owners && owners[c] in ps;
    if ps == {} {
      assert all == {};
    } else {
      var p :| p in ps;
      var rest := ps - {p};
      SharesBounded(owners, rest, max);
      assert all == (set c | c in owners && owners[c] in rest) + Held(owners, p);
      OneShareMore(|rest|, max, |(set c | c in owners && owners[c] in rest)|, |Held(owners, p)|);
    }
  }

  lemma {:induction false} DistinctSize(list: seq<Proc>)
    requires Distinct(list)
    ensures |Members(list)| == |list|
  {
    if list == [] {
      assert Members(list) == {};
    } else {
      DistinctSize(list[1..]);
      var rest := Members(list[1..]);
      assert list == [list[0]] + list[1..];
      assert Members(list) == {list[0]} + rest;
      assert list[0] !in rest;
    }
  }

  lemma ProductGrows(n: nat, m: nat, max: nat)
    requires n <= m
    ensures n * max <= m * max
  {
  }

  /** No more owners than processes times contexts. */
  lemma OwnersWithinLimits(owners: map<Context, Proc>, instances: seq<Proc>, maxProcesses: nat, max: nat)
    requires Distinct(instances) && |instances| <= maxProcesses
    requires forall p | p in instances :: |Held(owners, p)| <= max
    requires forall c | c in owners :: owners[c] in instances
    ensures |owners| <= maxProcesses * max
  {
    var ps := Members(instances);
    SharesBounded(owners, ps, max);
    assert owners.Keys == set c | c in owners && owners[c] in ps;
    DistinctSize(instances);
    ProductGrows(|ps|, maxProcesses, max);
  }

  /**
    What the invariant means for a caller, in any state an interleaving reaches: the
    counts are the contexts held plus the releases under way, the limits hold, and every
    owner is a process still in the pool.
   */
  lemma Accounting(cfg: Config, states: seq<State>, ops: seq<Op>, k: nat)
    requires 0 < cfg.maxProcesses && 0 < cfg.maxContexts
    requires IsRun(cfg, states, ops) && states[0] == EMPTY && k < |states|
    ensures var s := states[k];
      && (forall p | p in s.instances :: p in s.procs &&
            s.procs[p].contexts == |Held(s.owners, p)| + |Held(s.releasing, p)| <= cfg.maxContexts)
      && |s.instances| <= cfg.maxProcesses
      && |s.owners| <= cfg.maxProcesses * cfg.maxContexts
      && (forall c | c in s.owners :: s.owners[c] == c.proc && s.owners[c] in s.instances && s.owners[c] !in s.dead)
  {
    RunKeeps(cfg, states, ops, k);
    var s := states[k];
    forall p | p in s.instances ensures |Held(s.owners, p)| <= cfg.maxContexts {
      assert p in s.procs;
    }
    OwnersWithinLimits(s.owners, s.instances, cfg.maxProcesses, cfg.maxContexts);
  }

  /** RESOURCE_EXHAUSTED exactly when the pool is open, at its size limit and full throughout. */
  lemma ExhaustedExactly(cfg: Config, s: State, launch: Launch, ok: bool)
    requires Inv(cfg, s)
    ensures Acquire(cfg, s, launch, ok).1.Exhausted? <==>
            && !s.closed && |s.instances| == cfg.maxProcesses
            && forall p | p in s.instances :: s.procs[p].contexts == cfg.maxContexts
  {
    FirstFreeFinds(cfg, s, 0);
    var i := FirstFree(cfg, s, 0);
    if i < |s.instances| {
      assert s.instances[i] in s.instances;
    } else {
      forall p | p in s.instances ensures s.procs[p].contexts == cfg.maxContexts {
        var j :| 0 <= j < |s.instances| && s.instances[j] == p;
      }
    }
  }

  predicate HasRoom(cfg: Config, s: State, p: Proc)
    requires p in s.procs
  {
    s.procs[p].contexts < cfg.maxContexts
  }

  lemma RoomIsFound(cfg: Config, s: State)
    requires forall p | p in s.instances :: p in s.procs
    ensures FirstFree(cfg, s, 0) < |s.instances| <==> exists p :: p in s.instances && HasRoom(cfg, s, p)
  {
    FirstFreeFinds(cfg, s, 0);
    var i := FirstFree(cfg, s, 0);
    if i < |s.instances| {
      assert s.instances[i] in s.instances && HasRoom(cfg, s, s.instances[i]);
    }
  }

  /**
    When each answer is given: a context is handed out exactly if the pool is open, the browser opens
    one, and there is a process for it, either one with room or one that was just launched because
    none has room and the limit allows another.
   */
  lemma AcquireExactly(cfg: Config, s: State, launch: Launch, ok: bool)
    requires Inv(cfg, s)
    ensures var r := Acquire(cfg, s, launch, ok).1;
      var room := exists p :: p in s.instances && s.procs[p].contexts < cfg.maxContexts;
      var grows := |s.instances| < cfg.maxProcesses;
      && (r.PoolClosed? <==> s.closed)
      && (r.Exhausted? <==> !s.closed && !room && !grows)
      && (r.CannotStart? <==> !s.closed && !room && grows && !launch.Launched?)
      && (r.ContextFailed? <==> !s.closed && (room || (grows && launch.Launched?)) && !ok)
      && (r.Acquired? <==> !s.closed && (room || (grows && launch.Launched?)) && ok)
  {
    RoomIsFound(cfg, s);
    assert forall p | p in s.instances :: HasRoom(cfg, s, p) <==> s.procs[p].contexts < cfg.maxContexts;
  }

  /** Whose context it is: the first process in start order with room, or, if none has, the launched one. */
  lemma AcquiredWhere(cfg: Config, s: State, launch: Launch, ok: bool)
    requires Inv(cfg, s) && Enabled(s, OpAcquire(launch, ok))
    requires Acquire(cfg, s, launch, ok).1.Acquired?
    ensures var (s', r) := Acquire(cfg, s, launch, ok);
      var p := r.ctx.proc;
      && (forall i | 0 <= i < |s.instances| && s.procs[s.instances[i]].contexts < cfg.maxContexts
                     && (forall j | 0 <= j < i :: s.procs[s.instances[j]].contexts >= cfg.maxContexts) ::
            p == s.instances[i] && s'.instances == s.instances)
      && ((forall q | q in s.instances :: s.procs[q].contexts >= cfg.maxContexts) ==>
            launch == Launched(p) && s'.instances == s.instances + [p])
      && p in s'.procs
      && s'.procs[p].contexts == 1 + (if p in s.instances then s.procs[p].contexts else 0)
  {
    FirstFreeFinds(cfg, s, 0);
    var i := FirstFree(cfg, s, 0);
    if i < |s.instances| {
      assert s.instances[i] in s.instances;
    }
  }

  /** A handed-out context is new, belongs to a process in the pool, and only that process gains it. */
  lemma AcquiredIsNew(cfg: Config, s: State, launch: Launch, ok: bool)
    requires Inv(cfg, s) && Enabled(s, OpAcquire(launch, ok))
    requires Acquire(cfg, s, launch, ok).1.Acquired?
    ensures var (s', r) := Acquire(cfg, s, launch, ok);
      && r.ctx !in s.owners && r.ctx !in s.releasing
      && s'.owners == s.owners[r.ctx := r.ctx.proc] && s'.releasing == s.releasing
      && r.ctx.proc in s'.instances
      && (forall p | p in s.procs && p != r.ctx.proc :: p in s'.procs && s'.procs[p] == s.procs[p])
  {
    FirstFreeFinds(cfg, s, 0);
  }

  /** Reuse before growth: the pool starts a process only when every one it has is full. */
  lemma GrowsOnlyWhenFull(cfg: Config, s: State, launch: Launch, ok: bool)
    requires Inv(cfg, s) && Enabled(s, OpAcquire(launch, ok))
    requires Acquire(cfg, s, launch, ok).0.instances != s.instances
    ensures launch.Launched? && Acquire(cfg, s, launch, ok).0.instances == s.instances + [launch.proc]
    ensures forall p | p in s.instances :: s.procs[p].contexts == cfg.maxContexts
  {
    FirstFreeFinds(cfg, s, 0);
    forall p | p in s.instances ensures s.procs[p].contexts == cfg.maxContexts {
      var j :| 0 <= j < |s.instances| && s.instances[j] == p;
    }
  }

  /** Without a successful acquisition nothing changes but, at most, one more idle process. */
  lemma FailedAcquire(cfg: Config, s: State, launch: Launch, ok: bool)
    requires Inv(cfg, s) && Enabled(s, OpAcquire(launch, ok))
    requires !Acquire(cfg, s, launch, ok).1.Acquired?
    ensures var s' := Acquire(cfg, s, launch, ok).0;
      s' == s || (launch.Launched? && s' == Started(s, launch.proc))
  {
    FirstFreeFinds(cfg, s, 0);
  }

  /** Recycling drops exactly the idle processes above the limit, and keeps the others in order. */
  lemma RecycleExactly(cfg: Config, s: State, mem: map<Proc, nat>, p: Proc)
    requires Inv(cfg, s) && Enabled(s, OpRecycle(mem)) && p in s.instances
    ensures var s' := Recycle(cfg, s, mem);
      && (p !in s'.instances <==> cfg.memoryLimit > 0 && s.procs[p].contexts == 0 && mem[p] > cfg.memoryLimit)
      && (p !in s'.instances <==> p in s'.dead)
      && (p !in s'.instances ==> Held(s.owners, p) == {} && Held(s.releasing, p) == {})
      && s'.owners == s.owners && s'.procs == s.procs
  {
    KeptIsFilter(cfg, s, mem, s.instances);
  }

  // ---- no orphan process ----

  function Alive(s: State): set<Proc> { s.procs.Keys - s.dead }

  /** After Close has begun no step adds a living process and no acquisition succeeds. */
  lemma ClosedStaysClosed(cfg: Config, s: State, op: Op)
    requires Inv(cfg, s) && Enabled(s, op) && s.closed
    ensures var s' := Apply(cfg, s, op);
      && s'.closed && Alive(s') <= Alive(s)
      && (op.OpAcquire? ==> s' == s && Acquire(cfg, s, op.launch, op.incognitoOk).1.PoolClosed?)
      && (op.OpAdopt? ==> op.proc in s'.dead)
  {
  }

  /** Over a whole run: every process started is in the pool, being closed, or closed ... */
  lemma NoOrphan(cfg: Config, states: seq<State>, ops: seq<Op>, k: nat)
    requires 0 < cfg.maxProcesses && 0 < cfg.maxContexts
    requires IsRun(cfg, states, ops) && states[0] == EMPTY && k < |states|
    ensures var s := states[k];
      && Alive(s) == Members(s.instances) + s.closing
      && (s.closed && s.closing == {} ==> Alive(s) == {})
  {
    RunKeeps(cfg, states, ops, k);
  }

  /** ... and once a Close has finished, nothing is alive at any later point of the run. */
  lemma {:induction false} NothingSurvivesClose(cfg: Config, states: seq<State>, ops: seq<Op>, k: nat, later: nat)
    requires 0 < cfg.maxProcesses && 0 < cfg.maxContexts
    requires IsRun(cfg, states, ops) && states[0] == EMPTY
    requires k <= later < |states| && states[k].closed && states[k].closing == {}
    ensures states[later].closed && Alive(states[later]) == {}
    decreases later
  {
    if later == k {
      NoOrphan(cfg, states, ops, k);
    } else {
      NothingSurvivesClose(cfg, states, ops, k, later - 1);
      NothingComesBack(cfg, states, ops, later - 1);
    }
  }

  lemma NothingComesBack(cfg: Config, states: seq<State>, ops: seq<Op>, k: nat)
    requires 0 < cfg.maxProcesses && 0 < cfg.maxContexts
    requires IsRun(cfg, states, ops) && states[0] == EMPTY && k < |ops|
    requires states[k].closed && Alive(states[k]) == {}
    ensures states[k + 1].closed && Alive(states[k + 1]) == {}
  {
    RunKeeps(cfg, states, ops, k);
    ClosedStaysClosed(cfg, states[k], ops[k]);
  }
}
