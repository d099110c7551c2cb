/**
  The screencast of one open session, as threads that subscribe, cancel and restart, and
  evictions that stop it from outside.

  They interleave at the grain of single operations: taking the session's lifecycle lock, each
  change of the hub, each look at the subscriber count, LoadAndDelete, Store, Start and Stop on
  the screencaster, and letting go of the lock. The lock keeps the threads apart; an eviction
  does not take it, so its LoadAndDelete and its Stop may come anywhere.
 */
module Screencast {
  import opened Options

  type Thread = nat
  type Caster = nat      // one screencaster object

  datatype Job = Subscribe | Cancel(sub: nat) | Restart

  /** What comes after a stop: a cancel is finished, a restart goes on to start anew. */
  datatype After = Finish | StartAnew

  /** Where a thread is. All but the first and the last are inside the lifecycle lock. */
  datatype Pc =
    | Waiting(job: Job)
    | Entered(job: Job)
    | SubCounting                       // hub.Subscribe done, count not yet read
    | CancelCounting                    // hubCancel done, count not yet read
    | Taking(after: After)              // about to LoadAndDelete
    | Stopping(caster: Caster, after: After)
    | ReadingPage
    | Storing
    | Starting(caster: Caster)
    | Leaving
    | Gone

  datatype State = State(
    lock: Option<Thread>,
    threads: map<Thread, Pc>,
    subs: set<nat>,
    nextSub: nat,
    registered: Option<Caster>,
    nextCaster: Caster,
    running: set<Caster>,
    pending: set<Caster>,       // taken out by an eviction that has yet to stop it
    missed: set<Caster>)        // stopped by an eviction when its Start was still to come

  const INITIAL := State(None, map[], {}, 0, None, 0, {}, {}, {})

  /** outcome: the page is there; the start succeeds. It is ignored where nothing is decided by it. */
  datatype Step =
    | Arrive(thread: Thread, job: Job)
    | Advance(thread: Thread, outcome: bool)
    | TakeOutside                       // an eviction's LoadAndDelete, without the lifecycle lock
    | StopOutside(caster: Caster)       // and the Stop that follows it at some time

  predicate Inside(pc: Pc) { !pc.Waiting? && !pc.Gone? }

  /**
    A job arrives on a thread of its own; a cancel belongs to a subscription made before, and
    may come any number of times.
   */
  predicate Enabled(s: State, step: Step) {
    match step
    case Arrive(t, job) => t !in s.threads && (job.Cancel? ==> job.sub < s.nextSub)
    case Advance(t, _) =>
      && t in s.threads && !s.threads[t].Gone?
      && (s.threads[t].Waiting? ==> s.lock.None?)
    case TakeOutside => true
    case StopOutside(c) => c in s.pending
  }

  function Goto(s: State, t: Thread, pc: Pc): State { s.(threads := s.threads[t := pc]) }

  function Move(s: State, t: Thread, outcome: bool): State
    requires t in s.threads
  {
    match s.threads[t]
    case Waiting(job) => Goto(s, t, Entered(job)).(lock := Some(t))
    case Entered(Subscribe) => Goto(s, t, SubCounting).(subs := s.subs + {s.nextSub}, nextSub := s.nextSub + 1)
    case Entered(Cancel(sub)) => Goto(s, t, CancelCounting).(subs := s.subs - {sub})
    case Entered(Restart) => Goto(s, t, if |s.subs| == 0 then Leaving else Taking(StartAnew))
    case SubCounting => Goto(s, t, if |s.subs| == 1 then ReadingPage else Leaving)
    case CancelCounting => Goto(s, t, if |s.subs| == 0 then Taking(Finish) else Leaving)
    case Taking(after) =>
      if s.registered.Some? then Goto(s, t, Stopping(s.registered.value, after)).(registered := None)
      else Goto(s, t, if after.Finish? then Leaving else ReadingPage)
    case Stopping(c, after) =>
      Goto(s, t, if after.Finish? then Leaving else ReadingPage).(running := s.running - {c})
    case ReadingPage => Goto(s, t, if outcome then Storing else Leaving)
    case Storing =>
      Goto(s, t, Starting(s.nextCaster)).(registered := Some(s.nextCaster), nextCaster := s.nextCaster + 1)
    case Starting(c) => Goto(s, t, Leaving).(running := if outcome then s.running + {c} else s.running)
    case Leaving => Goto(s, t, Gone).(lock := None)
    case Gone => s
  }

  function Take(s: State): State {
    if s.registered.Some? then s.(registered := None, pending := s.pending + {s.registered.value}) else s
  }

  predicate StartDue(s: State, c: Caster) { exists t | t in s.threads :: s.threads[t] == Starting(c) }

  /** Stopping what does not run is no error and has no effect, also on a Start still to come. */
  function Stop(s: State, c: Caster): State {
    s.(pending := s.pending - {c}, running := s.running - {c},
       missed := if StartDue(s, c) then s.missed + {c} else s.missed)
  }

  function Apply(s: State, step: Step): State
    requires Enabled(s, step)
  {
    match step
    case Arrive(t, job) => Goto(s, t, Waiting(job))
    case Advance(t, outcome) => Move(s, t, outcome)
    case TakeOutside => Take(s)
    case StopOutside(c) => Stop(s, c)
  }

  function Registered(s: State): set<Caster> { if s.registered.Some? then {s.registered.value} else {} }

  /** What evictions have taken out of the lock's reach. */
  function Leftover(s: State): set<Caster> { s.pending + s.missed }

  /** How things stand whenever nobody is inside. */
  predicate AtRest(s: State) {
    && (s.registered.Some? ==> s.subs != {})
    && s.running <= Registered(s) + Leftover(s)
  }

  /** How things stand while the thread inside is at pc. */
  predicate Midway(s: State, pc: Pc) {
    match pc
    case Entered(_) => AtRest(s)
    case SubCounting =>
      && s.subs != {} && s.running <= Registered(s) + Leftover(s)
      && (|s.subs| == 1 ==> s.registered.None?)
    case CancelCounting => s.running <= Registered(s) + Leftover(s)
    case Taking(after) => s.running <= Registered(s) + Leftover(s) && (s.subs == {} <==> after.Finish?)
    case Stopping(c, after) =>
      && s.registered.None? && c < s.nextCaster && c !in Leftover(s)
      && s.running <= {c} + Leftover(s) && (s.subs == {} <==> after.Finish?)
    case ReadingPage => s.subs != {} && s.registered.None? && s.running <= Leftover(s)
    case Storing => s.subs != {} && s.registered.None? && s.running <= Leftover(s)
    case Starting(c) =>
      && s.subs != {} && s.running <= Leftover(s) && c !in s.running && c < s.nextCaster
      && (s.registered == Some(c) || (s.registered.None? && c in Leftover(s)))
    case Leaving => AtRest(s)
    case _ => false
  }

  /** No screencaster is in two of these places, and each has been handed out. */
  predicate Apart(s: State) {
    && s.pending !! s.missed
    && (s.registered.Some? ==> s.registered.value !in Leftover(s))
    && (s.registered.Some? ==> s.registered.value < s.nextCaster)
    && (forall c | c in s.running :: c < s.nextCaster)
    && (forall c | c in s.pending :: c < s.nextCaster)
    && (forall c | c in s.missed :: c < s.nextCaster)
  }

  ghost predicate Inv(s: State) {
    && Apart(s)
    && (forall i | i in s.subs :: i < s.nextSub)
    && (forall t | t in s.threads :: Inside(s.threads[t]) ==> s.lock == Some(t))
    && (s.lock.None? ==> AtRest(s))
    && (s.lock.Some? ==> s.lock.value in s.threads && Midway(s, s.threads[s.lock.value]))
  }

  lemma SizeZero(subs: set<nat>)
    ensures |subs| == 0 <==> subs == {}
  {
  }

  /** With one subscriber after an addition there was none before. */
  lemma FirstOfAll(subs: set<nat>, n: nat)
    requires n !in subs && |subs + {n}| == 1
    ensures subs == {}
  {
    assert |subs + {n}| == |subs| + 1;
  }

  /** Moving a screencaster from one place to another leaves it in one. */
  lemma MoveApart(s: State, t: Thread, outcome: bool)
    requires t in s.threads && Midway(s, s.threads[t]) && Apart(s)
    ensures Apart(Move(s, t, outcome))
  {
  }

  lemma EnterInside(s: State, t: Thread, outcome: bool)
    requires t in s.threads && s.threads[t].Entered? && AtRest(s) && s.nextSub !in s.subs
    ensures var s' := Move(s, t, outcome); Midway(s', s'.threads[t])
  {
    SizeZero(s.subs);
    if s.threads[t] == Entered(Subscribe) && |s.subs + {s.nextSub}| == 1 {
      FirstOfAll(s.subs, s.nextSub);
    }
  }

  lemma CountInside(s: State, t: Thread, outcome: bool)
    requires t in s.threads && Midway(s, s.threads[t]) && (s.threads[t].SubCounting? || s.threads[t].CancelCounting?)
    ensures var s' := Move(s, t, outcome); Midway(s', s'.threads[t])
  {
    SizeZero(s.subs);
  }

  lemma StopInside(s: State, t: Thread, outcome: bool)
    requires t in s.threads && Midway(s, s.threads[t]) && (s.threads[t].Taking? || s.threads[t].Stopping?) && Apart(s)
    ensures var s' := Move(s, t, outcome); Midway(s', s'.threads[t])
  {
  }

  lemma StartInside(s: State, t: Thread, outcome: bool)
    requires t in s.threads && Midway(s, s.threads[t]) && Apart(s)
    requires s.threads[t].ReadingPage? || s.threads[t].Storing? || s.threads[t].Starting?
    ensures var s' := Move(s, t, outcome); Midway(s', s'.threads[t])
  {
  }

  /** The thread inside finds and leaves things as its position says. */
  lemma MoveInside(s: State, t: Thread, outcome: bool)
    requires t in s.threads && Midway(s, s.threads[t]) && s.nextSub !in s.subs && Apart(s)
    ensures var s' := Move(s, t, outcome);
      if s.threads[t].Leaving? then AtRest(s') else Midway(s', s'.threads[t])
  {
    match s.threads[t]
    case Entered(_) => EnterInside(s, t, outcome);
    case SubCounting => CountInside(s, t, outcome);
    case CancelCounting => CountInside(s, t, outcome);
    case Taking(_) => StopInside(s, t, outcome);
    case Stopping(_, _) => StopInside(s, t, outcome);
    case Leaving =>
    case _ => StartInside(s, t, outcome);
  }

  /** Only the lock's holder is inside, before and after. */
  lemma MoveLocks(s: State, t: Thread, outcome: bool)
    requires t in s.threads && !s.threads[t].Gone?
    requires if s.threads[t].Waiting? then s.lock.None? else s.lock == Some(t)
    requires forall i | i in s.threads :: Inside(s.threads[i]) ==> s.lock == Some(i)
    ensures var s' := Move(s, t, outcome);
      && s'.lock == (if s.threads[t].Leaving? then None else Some(t))
      && t in s'.threads && (forall i | i in s'.threads :: Inside(s'.threads[i]) ==> s'.lock == Some(i))
  {
  }

  lemma MoveKeeps(s: State, t: Thread, outcome: bool)
    requires Inv(s) && Enabled(s, Advance(t, outcome))
    ensures Inv(Move(s, t, outcome))
  {
    MoveLocks(s, t, outcome);
    if !s.threads[t].Waiting? {
      MoveApart(s, t, outcome);
      MoveInside(s, t, outcome);
    }
  }

  lemma TakeKeeps(s: State)
    requires Inv(s)
    ensures Inv(Take(s))
  {
  }

  lemma StopKeeps(s: State, c: Caster)
    requires Inv(s) && c in s.pending
    ensures Inv(Stop(s, c))
  {
    if s.lock.Some? && s.threads[s.lock.value] == Starting(c) {
      assert StartDue(s, c);
    }
  }

  lemma StepKeeps(s: State, step: Step)
    requires Inv(s) && Enabled(s, step)
    ensures Inv(Apply(s, step))
  {
    match step
    case Arrive(_, _) =>
    case Advance(t, outcome) => MoveKeeps(s, t, outcome);
    case TakeOutside => TakeKeeps(s);
    case StopOutside(c) => StopKeeps(s, c);
  }

  ghost predicate IsRun(states: seq<State>, steps: seq<Step>) {
    && |states| == |steps| + 1 && states[0] == INITIAL
    && (forall k | 0 <= k < |steps| :: Enabled(states[k], steps[k]) && states[k + 1] == Apply(states[k], steps[k]))
  }

  lemma {:induction false} RunKeeps(states: seq<State>, steps: seq<Step>, k: nat)
    requires IsRun(states, steps) && k < |states|
    ensures Inv(states[k])
  {
    if k == 0 {
    } else {
      RunKeeps(states, steps, k - 1);
      StepKeeps(states[k - 1], steps[k - 1]);
    }
  }

  // ---- what runs ----

  /** The one screencaster the lock protocol answers for: registered, or about to be stopped by the lock's holder. */
  function Current(s: State): set<Caster> {
    Registered(s)
    + (if s.lock.Some? && s.lock.value in s.threads && s.threads[s.lock.value].Stopping?
       then {s.threads[s.lock.value].caster} else {})
  }

  /**
    At every moment of every interleaving, evictions included, whatever runs is the current
    screencaster or one an eviction has taken; the current one is at most one, and none of those.
   */
  lemma AllAccountedFor(states: seq<State>, steps: seq<Step>, k: nat)
    requires IsRun(states, steps) && k < |states|
    ensures var s := states[k];
      s.running <= Current(s) + Leftover(s) && |Current(s)| <= 1 && Current(s) !! Leftover(s)
  {
    RunKeeps(states, steps, k);
  }

  /** Of the running ones: those of a set that holds at most one, and those of a set apart from it. */
  lemma Divided(running: set<Caster>, current: set<Caster>, rest: set<Caster>)
    requires running <= current + rest && |current| <= 1 && current !! rest
    ensures |running| == |running * current| + |running * rest| && |running * current| <= 1
  {
    assert running == running * current + running * rest;
    if c :| c in running * current {
      assert |current - {c}| == |current| - 1;
      assert current - {c} == {};
      assert running * current == {c};
    } else {
      assert running * current == {};
    }
  }

  /**
    At most one screencast runs if and only if nothing an eviction took still runs, or one such and
    nothing new was started beside it. In particular whenever no eviction is half done or has
    missed, exactly because then nothing is left over.
   */
  lemma OneRunsExactly(states: seq<State>, steps: seq<Step>, k: nat)
    requires IsRun(states, steps) && k < |states|
    ensures var s := states[k];
      var left := s.running * Leftover(s);
      && (|s.running| <= 1 <==> left == {} || (|left| == 1 && s.running * Current(s) == {}))
      && (Leftover(s) == {} ==> |s.running| <= 1)
  {
    AllAccountedFor(states, steps, k);
    var s := states[k];
    Divided(s.running, Current(s), Leftover(s));
    var left := s.running * Leftover(s);
    assert left == {} <==> |left| == 0;
    assert s.running * Current(s) == {} <==> |s.running * Current(s)| == 0;
  }

  /** No Store lands on a registered screencast; what then still runs, an eviction has taken. */
  lemma StoreNeverOverwrites(states: seq<State>, steps: seq<Step>, k: nat, t: Thread)
    requires IsRun(states, steps) && k < |states|
    requires t in states[k].threads && states[k].threads[t].Storing?
    ensures states[k].registered.None? && states[k].running <= Leftover(states[k]) && states[k].subs != {}
  {
    RunKeeps(states, steps, k);
  }

  /**
    With the lock free, a registered screencast has a subscriber; without one nothing runs but
    what an eviction took.
   */
  lemma WatchedWhileRunning(states: seq<State>, steps: seq<Step>, k: nat)
    requires IsRun(states, steps) && k < |states| && states[k].lock.None?
    ensures states[k].registered.Some? ==> states[k].subs != {}
    ensures states[k].running <= Registered(states[k]) + Leftover(states[k])
    ensures states[k].subs == {} ==> states[k].registered.None? && states[k].running <= Leftover(states[k])
  {
    RunKeeps(states, steps, k);
  }

  // ---- one thread on its own ----

  function Rank(pc: Pc): nat {
    match pc
    case Waiting(_) => 8
    case Entered(_) => 7
    case SubCounting => 6
    case CancelCounting => 6
    case Taking(_) => 5
    case Stopping(_, _) => 4
    case ReadingPage => 3
    case Storing => 2
    case Starting(_) => 1
    case Leaving => 1
    case Gone => 0
  }

  /** Where the state is once thread t has gone through, nobody in between: page and start are what it meets. */
  function Through(s: State, t: Thread, page: bool, start: bool): State
    requires t in s.threads
    decreases if s.threads[t].Starting? then 2 else if s.threads[t].Leaving? then 1 else 2 * Rank(s.threads[t])
  {
    if s.threads[t].Gone? then s
    else Through(Move(s, t, if s.threads[t].ReadingPage? then page else start), t, page, start)
  }
}
