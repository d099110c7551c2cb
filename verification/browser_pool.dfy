/**
  The pool and its processes as the mutable objects they are.

  Every method is proved against the state machine of PoolSpec: the ghost field Model holds
  the abstract state, Valid ties the real fields to it, and each contract says which step
  was taken.
 */
module BrowserPool {
  import opened Options
  import opened PoolSpec

  /** One browser process. Opening a context may fail at the browser's end. */
  class ChromiumInstance {
    const id: Proc
    var contexts: nat
    var issued: nat
    var shut: bool

    constructor (id: Proc)
      ensures this.id == id && contexts == 0 && issued == 0 && !shut
    {
      this.id, contexts, issued, shut := id, 0, 0, false;
    }

    method AcquireContext(incognitoOk: bool) returns (ctx: Option<Context>)
      modifies this`contexts, this`issued
      ensures incognitoOk ==> ctx == Some(Context(id, old(issued) + 1))
                              && contexts == old(contexts) + 1 && issued == old(issued) + 1
      ensures !incognitoOk ==> ctx.None? && contexts == old(contexts) && issued == old(issued)
    {
      if !incognitoOk {
        return None;
      }
      issued := issued + 1;
      contexts := contexts + 1;
      ctx := Some(Context(id, issued));
    }

    /** The count goes down whether or not the browser then manages to dispose of the context. */
    method ReleaseContext(disposeOk: bool) returns (ok: bool)
      modifies this`contexts
      ensures contexts == if old(contexts) > 0 then old(contexts) - 1 else 0
      ensures ok == disposeOk
    {
      if contexts > 0 {
        contexts := contexts - 1;
      }
      ok := disposeOk;
    }

    method Close()
      modifies this`shut
      ensures shut
    {
      shut := true;
    }
  }

  class Pool {
    const cfg: Config
    var buf: array<ChromiumInstance?>     // backing array of p.instances
    var size: nat                         // its length
    var owners: map<Context, ChromiumInstance>
    var closed: bool

    ghost var Model: State
    ghost var Procs: map<Proc, ChromiumInstance>   // every process this pool ever held

    /**
      The objects are what Model says they are. That Model satisfies PoolSpec.Inv needs no
      place here: every method below takes one step of PoolSpec, and those keep it.
     */
    ghost predicate Valid()
      reads this, buf, Procs.Values
    {
      && Model.closed == closed
      && Listed(Model.instances) && Counted(Model.procs) && Shut(Model.dead) && Owned(Model.owners)
    }

    /** The slots in use hold these processes, in this order. */
    ghost predicate Listed(list: seq<Proc>)
      reads this`size, this`buf, this`Procs, buf
    {
      size == |list| && Starts(list)
    }

    /** The backing array starts with these processes. */
    ghost predicate Starts(list: seq<Proc>)
      reads this`buf, this`Procs, buf
    {
      && |list| <= buf.Length
      && (forall k | 0 <= k < |list| :: list[k] in Procs && buf[k] == Procs[list[k]])
    }

    ghost predicate Counted(procs: map<Proc, Process>)
      reads this`Procs, Procs.Values`contexts, Procs.Values`issued
    {
      && Procs.Keys == procs.Keys
      && (forall p | p in Procs :: Procs[p].id == p && procs[p] == Process(Procs[p].contexts, Procs[p].issued))
    }

    ghost predicate Shut(dead: set<Proc>)
      reads this`Procs, Procs.Values`shut
    {
      dead <= Procs.Keys && forall p | p in Procs :: Procs[p].shut <==> p in dead
    }

    ghost predicate Owned(m: map<Context, Proc>)
      reads this`owners, this`Procs
    {
      && owners.Keys == m.Keys
      && (forall x | x in owners :: owners[x].id == m[x] && owners[x] in Procs.Values)
    }

    constructor (maxProcesses: int, maxContexts: int, memoryLimit: nat)
      ensures Valid() && fresh(buf) && cfg == NewConfig(maxProcesses, maxContexts, memoryLimit)
      ensures cfg.maxProcesses == (if maxProcesses > 0 then maxProcesses else 1)
      ensures cfg.maxContexts == (if maxContexts > 0 then maxContexts else 8) && cfg.memoryLimit == memoryLimit
      ensures Model == EMPTY && Procs == map[]
    {
      cfg := NewConfig(maxProcesses, maxContexts, memoryLimit);
      buf := new ChromiumInstance?[0];
      size, owners, closed := 0, map[], false;
      Model, Procs := EMPTY, map[];
    }

    /** append(p.instances, inst): a full backing array is replaced by a larger copy. */
    method Append(inst: ChromiumInstance)
      requires size <= buf.Length
      modifies this`buf, this`size, buf
      ensures size == old(size) + 1 <= buf.Length
      ensures buf == old(buf) || fresh(buf)
      ensures forall k | 0 <= k < old(size) :: buf[k] == old(buf[k])
      ensures buf[old(size)] == inst
    {
      if size == buf.Length {
        var grown := new ChromiumInstance?[2 * size + 1];
        forall k | 0 <= k < size {
          grown[k] := buf[k];
        }
        buf := grown;
      }
      buf[size] := inst;
      size := size + 1;
    }

    /** First fit over the open processes, then a new one, then refusal. */
    method Acquire(launch: Launch, incognitoOk: bool) returns (r: AcquireResult)
      requires Valid() && Enabled(Model, OpAcquire(launch, incognitoOk))
      modifies this, buf, Procs.Values
      ensures Valid() && (buf == old(buf) || fresh(buf)) && fresh(Procs.Values - old(Procs.Values))
      ensures (Model, r) == PoolSpec.Acquire(cfg, old(Model), launch, incognitoOk)
    {
      if closed {
        return AcquireResult.PoolClosed;
      }
      var i := FindFree();
      if i < size {
        r := AcquireOn(buf[i], incognitoOk);
        return;
      }
      if size >= cfg.maxProcesses {
        return Exhausted;
      }
      if !launch.Launched? {
        return CannotStart;
      }
      r := AcquireOnNew(launch.proc, incognitoOk);
    }

    /** The first process with room, or the end of the list. */
    method FindFree() returns (i: nat)
      requires Valid()
      ensures i == FirstFree(cfg, Model, 0) <= size
    {
      i := 0;
      while i < size
        invariant 0 <= i <= size
        invariant FirstFree(cfg, Model, 0) == FirstFree(cfg, Model, i)
      {
        if buf[i].contexts < cfg.maxContexts {
          return;
        }
        i := i + 1;
      }
    }

    method AcquireOnNew(p: Proc, incognitoOk: bool) returns (r: AcquireResult)
      requires Valid() && p !in Model.procs
      modifies this`buf, this`size, this`owners, this`Model, this`Procs, buf
      ensures Valid() && (buf == old(buf) || fresh(buf)) && fresh(Procs.Values - old(Procs.Values))
      ensures (Model, r) == PoolSpec.AcquireOn(Started(old(Model), p), p, incognitoOk)
    {
      var inst := Start(p);
      r := AcquireOn(inst, incognitoOk);
    }

    /** Opens a context on one process and records whose it is. */
    method AcquireOn(inst: ChromiumInstance, incognitoOk: bool) returns (r: AcquireResult)
      requires Valid() && inst.id in Procs && inst == Procs[inst.id]
      modifies this`owners, this`Model, inst`contexts, inst`issued
      ensures Valid()
      ensures (Model, r) == PoolSpec.AcquireOn(old(Model), inst.id, incognitoOk)
    {
      var ctx := OpenContext(inst, incognitoOk);
      if ctx.None? {
        return ContextFailed;
      }
      Own(ctx.value, inst);
      r := Acquired(ctx.value);
    }

    method Own(ctx: Context, inst: ChromiumInstance)
      requires Valid() && inst.id in Procs && inst == Procs[inst.id]
      modifies this`owners, this`Model
      ensures Valid() && Model == old(Model).(owners := old(Model).owners[ctx := inst.id])
    {
      owners := owners[ctx := inst];
      Model := Model.(owners := Model.owners[ctx := inst.id]);
    }

    method OpenContext(inst: ChromiumInstance, incognitoOk: bool) returns (ctx: Option<Context>)
      requires Valid() && inst.id in Procs && inst == Procs[inst.id]
      modifies this`Model, inst`contexts, inst`issued
      ensures Valid() && ctx.Some? == incognitoOk
      ensures ctx.None? ==> Model == old(Model)
      ensures ctx.Some? ==> var now := Process(inst.contexts, inst.issued);
                && now == Process(old(inst.contexts) + 1, old(inst.issued) + 1)
                && ctx.value == Context(inst.id, now.issued)
                && Model == old(Model).(procs := old(Model).procs[inst.id := now])
    {
      ctx := inst.AcquireContext(incognitoOk);
      Model := Model.(procs := Model.procs[inst.id := Process(inst.contexts, inst.issued)]);
    }

    /** Puts a process that was just launched into the list. */
    method Start(p: Proc) returns (inst: ChromiumInstance)
      requires Valid() && p !in Model.procs
      modifies this`buf, this`size, this`Model, this`Procs, buf
      ensures Valid() && (buf == old(buf) || fresh(buf))
      ensures fresh(inst) && inst.id == p && Procs == old(Procs)[p := inst]
      ensures Model == PoolSpec.Started(old(Model), p)
    {
      inst := NewProcess(p);
      Enlist(inst);
    }

    method NewProcess(p: Proc) returns (inst: ChromiumInstance)
      requires Valid() && p !in Model.procs
      modifies this`Model, this`Procs
      ensures Valid() && fresh(inst) && inst.id == p && Procs == old(Procs)[p := inst]
      ensures Model == old(Model).(procs := old(Model).procs[p := Process(0, 0)])
    {
      inst := new ChromiumInstance(p);
      Know(inst);
    }

    ghost method Know(inst: ChromiumInstance)
      requires Valid() && inst.id !in Model.procs && inst.contexts == inst.issued == 0 && !inst.shut
      modifies this`Model, this`Procs
      ensures Valid() && Procs == old(Procs)[inst.id := inst]
      ensures Model == old(Model).(procs := old(Model).procs[inst.id := Process(0, 0)])
    {
      Model := Model.(procs := Model.procs[inst.id := Process(0, 0)]);
      Procs := Procs[inst.id := inst];
    }

    method Enlist(inst: ChromiumInstance)
      requires Valid() && inst.id in Procs && Procs[inst.id] == inst
      modifies this`buf, this`size, this`Model, buf
      ensures Valid() && (buf == old(buf) || fresh(buf))
      ensures Model == old(Model).(instances := old(Model).instances + [inst.id])
    {
      Append(inst);
      Model := Model.(instances := Model.instances + [inst.id]);
    }

    /** First half of Release, under the pool's lock. */
    method ReleaseOwner(ctx: Context) returns (inst: ChromiumInstance?)
      requires Valid()
      modifies this`owners, this`Model
      ensures Valid()
      ensures Model == PoolSpec.ReleaseOwner(old(Model), ctx)
      ensures inst == if ctx in old(Model.owners) then Procs[old(Model.owners)[ctx]] else null
    {
      if ctx !in owners {
        return null;
      }
      inst := owners[ctx];
      owners := owners - {ctx};
      Model := PoolSpec.ReleaseOwner(Model, ctx);
    }

    /** Second half, under the process's own lock; other steps may have run in between. */
    method ReleaseCount(ctx: Context, inst: ChromiumInstance, disposeOk: bool) returns (ok: bool)
      requires Valid() && ctx in Model.releasing
      requires Model.releasing[ctx] in Procs && inst == Procs[Model.releasing[ctx]]
      modifies this`Model, inst`contexts
      ensures Valid()
      ensures Model == PoolSpec.ReleaseCount(old(Model), ctx)
      ensures ok == disposeOk
    {
      ok := inst.ReleaseContext(disposeOk);
      Model := PoolSpec.ReleaseCount(Model, ctx);
    }

    /** Release as one caller sees it; releasing a context twice is no error and does nothing. */
    method Release(ctx: Option<Context>, disposeOk: bool) returns (ok: bool)
      requires Valid()
      modifies this`owners, this`Model, Procs.Values
      ensures Valid()
      ensures ctx.None? || ctx.value !in old(Model.owners) ==> ok && Model == old(Model)
      ensures ctx.Some? && ctx.value in old(Model.owners) ==>
                && ok == disposeOk
                && Model == PoolSpec.ReleaseCount(PoolSpec.ReleaseOwner(old(Model), ctx.value), ctx.value)
    {
      if ctx.None? {
        return true;
      }
      var inst := ReleaseOwner(ctx.value);
      if inst == null {
        return true;
      }
      ok := ReleaseCount(ctx.value, inst, disposeOk);
    }

    /** Of Valid, what concerns the list and the processes in it. */
    ghost predicate Lined()
      reads this, buf, Procs.Values
    {
      && Listed(Model.instances)
      && (forall p | p in Procs :: Procs[p].id == p)
      && (forall k | 0 <= k < size ::
            var p := Model.instances[k]; p in Model.procs && Model.procs[p].contexts == Procs[p].contexts)
    }

    ghost function DroppedOf(s: State, mem: map<Proc, nat>, list: seq<Proc>): set<Proc>
      requires forall p | p in list :: p in s.procs && p in mem
    {
      set p | p in list && !Keeps(cfg, s, mem, p)
    }

    /**
      The in-place filter: reads at i, writes at kept <= i, and shuts what it does not keep.
      Afterwards the first kept slots hold the kept processes in their old order.
     */
    method Compact(mem: map<Proc, nat>) returns (kept: nat)
      requires Lined() && forall p | p in Model.instances :: p in Model.procs && p in mem
      modifies buf, Procs.Values`shut
      ensures kept == |KeptOf(cfg, Model, mem, Model.instances)|
      ensures Starts(KeptOf(cfg, Model, mem, Model.instances))
      ensures forall o | o in Procs.Values :: o.shut == (old(o.shut) || o.id in DroppedOf(Model, mem, Model.instances))
    {
      ghost var s, procs, items := Model, Procs, buf[..size];
      ghost var list := s.instances;
      ghost var done: seq<Proc>, gone: set<Proc> := [], {};
      kept := 0;
      for i := 0 to size
        invariant done == KeptOf(cfg, s, mem, list[..i]) && gone == DroppedOf(s, mem, list[..i])
        invariant kept == |done| <= i && Starts(done)
        invariant forall k | i <= k < size :: buf[k] == items[k]
        invariant forall o | o in procs.Values :: o.shut == (old(o.shut) || o.id in gone)
      {
        var inst := buf[i];
        assert inst == items[i] == procs[list[i]] && inst.id == list[i];
        assert inst in procs.Values;
        assert s.procs[list[i]].contexts == inst.contexts;
        NextKept(s, mem, list, i);
        kept := Visit(inst, mem[inst.id], kept, done);
        if Keeps(cfg, s, mem, list[i]) {
          done := done + [list[i]];
        } else {
          gone := gone + {list[i]};
        }
      }
      assert list[..size] == list;
    }

    /** In use or within the limit it moves up to the kept ones; otherwise it is shut. */
    method Visit(inst: ChromiumInstance, used: nat, kept: nat, ghost done: seq<Proc>) returns (next: nat)
      requires Starts(done) && kept == |done| < buf.Length && inst.id in Procs && Procs[inst.id] == inst
      requires forall p | p in Procs :: Procs[p].id == p
      modifies buf, inst`shut
      ensures var keep := inst.contexts > 0 || used <= cfg.memoryLimit;
        && next == (if keep then kept + 1 else kept)
        && Starts(if keep then done + [inst.id] else done)
        && (forall o | o in Procs.Values :: o.shut == (old(o.shut) || (!keep && o.id == inst.id)))
      ensures forall k | kept < k < buf.Length :: buf[k] == old(buf[k])
    {
      if inst.contexts > 0 || used <= cfg.memoryLimit {
        buf[kept] := inst;
        return kept + 1;
      }
      inst.Close();
      next := kept;
    }

    lemma NextKept(s: State, mem: map<Proc, nat>, list: seq<Proc>, i: nat)
      requires i < |list| && forall p | p in list :: p in s.procs && p in mem
      ensures Keeps(cfg, s, mem, list[i]) ==>
                && KeptOf(cfg, s, mem, list[..i + 1]) == KeptOf(cfg, s, mem, list[..i]) + [list[i]]
                && DroppedOf(s, mem, list[..i + 1]) == DroppedOf(s, mem, list[..i])
      ensures !Keeps(cfg, s, mem, list[i]) ==>
                && KeptOf(cfg, s, mem, list[..i + 1]) == KeptOf(cfg, s, mem, list[..i])
                && DroppedOf(s, mem, list[..i + 1]) == DroppedOf(s, mem, list[..i]) + {list[i]}
    {
      assert list[..i + 1] == list[..i] + [list[i]] && list[..i + 1][..i] == list[..i];
    }

    /** Recycles the idle processes above the limit; a limit of zero switches this off. */
    method RecycleBloated(mem: map<Proc, nat>)
      requires Valid() && Enabled(Model, OpRecycle(mem))
      modifies this`size, this`Model, buf, Procs.Values`shut
      ensures Valid()
      ensures Model == Recycle(cfg, old(Model), mem)
    {
      if cfg.memoryLimit == 0 {
        return;
      }
      ghost var kept, dropped := KeptOf(cfg, Model, mem, Model.instances), DroppedOf(Model, mem, Model.instances);
      assert Recycle(cfg, Model, mem) == Model.(instances := kept, dead := Model.dead + dropped);
      Sift(mem, kept, dropped);
      Drop(kept, dropped);
    }

    /** The filter over the whole list: everything but Model says what recycling comes to. */
    method Sift(mem: map<Proc, nat>, ghost kept: seq<Proc>, ghost dropped: set<Proc>)
      requires Lined() && Shut(Model.dead) && forall p | p in Model.instances :: p in Model.procs && p in mem
      requires kept == KeptOf(cfg, Model, mem, Model.instances) && dropped == DroppedOf(Model, mem, Model.instances)
      requires dropped <= Procs.Keys
      modifies this`size, buf, Procs.Values`shut
      ensures Listed(kept) && Shut(Model.dead + dropped)
    {
      assert forall p | p in Procs :: Procs[p] in Procs.Values;
      size := Compact(mem);
    }

    ghost method Drop(kept: seq<Proc>, dropped: set<Proc>)
      requires Model.closed == closed && Listed(kept) && Counted(Model.procs) && Owned(Model.owners)
      requires Shut(Model.dead + dropped)
      modifies this`Model
      ensures Valid() && Model == old(Model).(instances := kept, dead := old(Model).dead + dropped)
    {
      Model := Model.(instances := kept, dead := Model.dead + dropped);
    }

    /** Takes in a process started elsewhere; a closed pool shuts it at once and reports that. */
    method Adopt(p: Proc) returns (ok: bool)
      requires Valid() && Enabled(Model, OpAdopt(p))
      modifies this`buf, this`size, this`Model, this`Procs, buf
      ensures Valid() && (buf == old(buf) || fresh(buf)) && fresh(Procs.Values - old(Procs.Values))
      ensures Model == PoolSpec.Adopt(old(Model), p)
      ensures ok == !closed
    {
      var inst := NewProcess(p);
      if closed {
        ShutOne(inst);
        return false;
      }
      Enlist(inst);
      ok := true;
    }

    /** First half of Close, under the lock: the list leaves the pool for good. */
    method BeginClose() returns (taken: array<ChromiumInstance?>, count: nat)
      requires Valid()
      modifies this`closed, this`buf, this`size, this`owners, this`Model
      ensures Valid() && fresh(buf)
      ensures Model == PoolSpec.BeginClose(old(Model))
      ensures taken == old(buf) && count == |old(Model.instances)| <= taken.Length
      ensures forall k | 0 <= k < count ::
                old(Model.instances)[k] in Procs && taken[k] == Procs[old(Model.instances)[k]]
    {
      taken, count := buf, size;
      buf := new ChromiumInstance?[0];
      closed, size, owners := true, 0, map[];
      Model := PoolSpec.BeginClose(Model);
    }

    method CloseOne(inst: ChromiumInstance)
      requires Valid() && inst.id in Procs && inst == Procs[inst.id]
      modifies this`Model, inst`shut
      ensures Valid()
      ensures Model == PoolSpec.CloseOne(old(Model), inst.id)
    {
      ShutOne(inst);
      Model := PoolSpec.CloseOne(old(Model), inst.id);
    }

    method ShutOne(inst: ChromiumInstance)
      requires Valid() && inst.id in Procs && inst == Procs[inst.id]
      modifies this`Model, inst`shut
      ensures Valid() && Model == old(Model).(dead := old(Model).dead + {inst.id})
    {
      inst.Close();
      Model := Model.(dead := Model.dead + {inst.id});
    }

    /** The state in the middle of a close: the first i processes of the list are shut. */
    ghost function Closing(s: State, list: seq<Proc>, i: nat): State
      requires i <= |list|
    {
      s.(closing := s.closing - Members(list[..i]), dead := s.dead + Members(list[..i]))
    }

    lemma NextClosing(s: State, list: seq<Proc>, i: nat)
      requires i < |list|
      ensures Closing(s, list, i + 1) == PoolSpec.CloseOne(Closing(s, list, i), list[i])
    {
      assert list[..i + 1] == list[..i] + [list[i]];
    }

    /** Close with nobody else at work: every process the pool held is shut when it returns. */
    method Close()
      requires Valid()
      modifies this, Procs.Values
      ensures Valid() && Procs == old(Procs) && closed && size == 0
      ensures Model.dead == old(Model.dead) + Members(old(Model.instances))
      ensures Model.closing == old(Model.closing) - Members(old(Model.instances))
      ensures Model.procs == old(Model.procs) && Model.releasing == old(Model.releasing)
    {
      var taken, count := BeginClose();
      ghost var s, list := Model, old(Model.instances);
      for i := 0 to count
        invariant Valid() && Procs == old(Procs) && Model == Closing(s, list, i)
      {
        CloseOne(taken[i]);
        NextClosing(s, list, i);
      }
      assert list[..count] == list;
    }
  }
}
