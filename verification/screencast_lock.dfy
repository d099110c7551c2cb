/**
  The code of the three critical sections as methods on the session's screencast state. What other
  threads may do in between is the business of the step machine; here each section runs through.
 */
module ScreencastLock {
  import opened Options
  import S = Screencast

  /** What the sections read and write. */
  datatype View = View(subs: set<nat>, nextSub: nat, registered: Option<S.Caster>, nextCaster: S.Caster,
                       running: set<S.Caster>)

  function ViewOf(s: S.State): View { View(s.subs, s.nextSub, s.registered, s.nextCaster, s.running) }

  const SELF: S.Thread := 0

  /** The step machine with one thread, waiting for the free lock. */
  function Alone(v: View, job: S.Job): S.State {
    S.State(None, map[SELF := S.Waiting(job)], v.subs, v.nextSub, v.registered, v.nextCaster, v.running, {}, {})
  }

  function AloneAt(v: View, pc: S.Pc): S.State {
    S.State(Some(SELF), map[SELF := pc], v.subs, v.nextSub, v.registered, v.nextCaster, v.running, {}, {})
  }

  /** What the steps make of the view when one job runs through undisturbed. */
  function Section(v: View, job: S.Job, page: bool, start: bool): View {
    ViewOf(S.Through(Alone(v, job), SELF, page, start))
  }

  function Rest(v: View, pc: S.Pc, page: bool, start: bool): View {
    ViewOf(S.Through(AloneAt(v, pc), SELF, page, start))
  }

  /** One step of the lone thread, to the place and view named. */
  lemma StepTo(v: View, pc: S.Pc, w: View, next: S.Pc, page: bool, start: bool)
    requires !pc.Gone? && !next.Gone?
    requires S.Move(AloneAt(v, pc), SELF, if pc.ReadingPage? then page else start) == AloneAt(w, next)
    ensures Rest(v, pc, page, start) == Rest(w, next, page, start)
  {
    var s := AloneAt(v, pc);
    assert s.threads[SELF] == pc;
    assert S.Through(s, SELF, page, start) == S.Through(AloneAt(w, next), SELF, page, start);
  }

  lemma LeaveSteps(v: View, page: bool, start: bool)
    ensures Rest(v, S.Leaving, page, start) == v
  {
    var s := AloneAt(v, S.Leaving);
    assert s.threads[SELF] == S.Leaving;
    var gone := S.Move(s, SELF, start);
    assert gone.threads[SELF] == S.Gone;
    assert S.Through(gone, SELF, page, start) == gone;
    assert S.Through(s, SELF, page, start) == S.Through(gone, SELF, page, start);
  }

  lemma StartSteps(v: View, page: bool, start: bool)
    ensures Rest(v, S.ReadingPage, page, start)
            == if !page then v
               else v.(registered := Some(v.nextCaster), nextCaster := v.nextCaster + 1,
                       running := if start then v.running + {v.nextCaster} else v.running)
  {
    if page {
      var c := v.nextCaster;
      var stored := v.(registered := Some(c), nextCaster := c + 1);
      var started := stored.(running := if start then v.running + {c} else v.running);
      StepTo(v, S.ReadingPage, v, S.Storing, page, start);
      StepTo(v, S.Storing, stored, S.Starting(c), page, start);
      StepTo(stored, S.Starting(c), started, S.Leaving, page, start);
      LeaveSteps(started, page, start);
    } else {
      StepTo(v, S.ReadingPage, v, S.Leaving, page, start);
      LeaveSteps(v, page, start);
    }
  }

  function Stopped(v: View): View {
    if v.registered.Some? then v.(registered := None, running := v.running - {v.registered.value}) else v
  }

  lemma StopSteps(v: View, after: S.After, page: bool, start: bool)
    ensures Rest(v, S.Taking(after), page, start)
            == Rest(Stopped(v), if after.Finish? then S.Leaving else S.ReadingPage, page, start)
  {
    var next := if after.Finish? then S.Leaving else S.ReadingPage;
    if v.registered.Some? {
      var taken := v.(registered := None);
      var c := v.registered.value;
      StepTo(v, S.Taking(after), taken, S.Stopping(c, after), page, start);
      StepTo(taken, S.Stopping(c, after), Stopped(v), next, page, start);
    } else {
      StepTo(v, S.Taking(after), v, next, page, start);
    }
  }

  lemma EnterSteps(v: View, job: S.Job, page: bool, start: bool)
    ensures Section(v, job, page, start) == Rest(v, S.Entered(job), page, start)
  {
    var s := Alone(v, job);
    assert s.threads[SELF] == S.Waiting(job);
    assert S.Move(s, SELF, start) == AloneAt(v, S.Entered(job));
    assert S.Through(s, SELF, page, start) == S.Through(AloneAt(v, S.Entered(job)), SELF, page, start);
  }

  // ---- what the three sections come to ----

  /** The only subscriber finds a page: one more screencaster is registered and, if it starts, running. */
  lemma SubscribeExactly(v: View, page: bool, start: bool)
    ensures var w := v.(subs := v.subs + {v.nextSub}, nextSub := v.nextSub + 1);
      Section(v, S.Subscribe, page, start) ==
        if |w.subs| != 1 || !page then w
        else w.(registered := Some(v.nextCaster), nextCaster := v.nextCaster + 1,
                running := if start then v.running + {v.nextCaster} else v.running)
  {
    var w := v.(subs := v.subs + {v.nextSub}, nextSub := v.nextSub + 1);
    var next := if |w.subs| == 1 then S.ReadingPage else S.Leaving;
    EnterSteps(v, S.Subscribe, page, start);
    StepTo(v, S.Entered(S.Subscribe), w, S.SubCounting, page, start);
    StepTo(w, S.SubCounting, w, next, page, start);
    if |w.subs| == 1 {
      StartSteps(w, page, start);
    } else {
      LeaveSteps(w, page, start);
    }
  }

  /** With the last subscriber the registered screencaster goes too, and stops. */
  lemma CancelExactly(v: View, sub: nat)
    ensures var w := v.(subs := v.subs - {sub});
      Section(v, S.Cancel(sub), true, true) ==
        if |w.subs| != 0 || v.registered.None? then w
        else w.(registered := None, running := v.running - {v.registered.value})
  {
    var w := v.(subs := v.subs - {sub});
    var next := if |w.subs| == 0 then S.Taking(S.Finish) else S.Leaving;
    EnterSteps(v, S.Cancel(sub), true, true);
    StepTo(v, S.Entered(S.Cancel(sub)), w, S.CancelCounting, true, true);
    StepTo(w, S.CancelCounting, w, next, true, true);
    if |w.subs| == 0 {
      StopSteps(w, S.Finish, true, true);
      LeaveSteps(Stopped(w), true, true);
    } else {
      LeaveSteps(w, true, true);
    }
  }

  /** With nobody watching nothing; else the registered screencaster stops and, given a page, another one starts. */
  lemma RestartExactly(v: View, page: bool, start: bool)
    ensures var was := if v.registered.Some? then {v.registered.value} else {};
      Section(v, S.Restart, page, start) ==
        if |v.subs| == 0 then v
        else if !page then v.(registered := None, running := v.running - was)
        else v.(registered := Some(v.nextCaster), nextCaster := v.nextCaster + 1,
                running := v.running - was + if start then {v.nextCaster} else {})
  {
    var next := if |v.subs| == 0 then S.Leaving else S.Taking(S.StartAnew);
    EnterSteps(v, S.Restart, page, start);
    StepTo(v, S.Entered(S.Restart), v, next, page, start);
    if |v.subs| == 0 {
      LeaveSteps(v, page, start);
    } else {
      StopSteps(v, S.StartAnew, page, start);
      StartSteps(Stopped(v), page, start);
    }
  }

  class SessionView {
    var subs: set<nat>
    var nextSub: nat
    var registered: Option<S.Caster>
    var nextCaster: S.Caster
    var running: set<S.Caster>

    function Now(): View
      reads this
    {
      View(subs, nextSub, registered, nextCaster, running)
    }

    constructor ()
      ensures Now() == View({}, 0, None, 0, {})
    {
      subs, nextSub, registered, nextCaster, running := {}, 0, None, 0, {};
    }

    method StopScreencast()
      modifies this`registered, this`running
      ensures Now() == Stopped(old(Now()))
    {
      if registered.Some? {
        var c := registered.value;
        registered := None;
        running := running - {c};
      }
    }

    method StartScreencastLocked(page: bool, start: bool)
      modifies this`registered, this`nextCaster, this`running
      ensures Now() == Rest(old(Now()), S.ReadingPage, page, start)
    {
      StartSteps(Now(), page, start);
      if !page {
        return;
      }
      var c := nextCaster;
      nextCaster := nextCaster + 1;
      registered := Some(c);
      if start {
        running := running + {c};
      }
    }

    /** The first subscriber turns the screencast on. */
    method Subscribe(page: bool, start: bool) returns (sub: nat)
      modifies this
      ensures sub == old(nextSub)
      ensures Now() == Section(old(Now()), S.Subscribe, page, start)
    {
      SubscribeExactly(Now(), page, start);
      sub := nextSub;
      nextSub := nextSub + 1;
      subs := subs + {sub};
      StartSteps(Now(), page, start);
      if |subs| == 1 {
        StartScreencastLocked(page, start);
      }
    }

    /** The last cancel turns it off; a repeated one finds the count as it is. */
    method Cancel(sub: nat)
      modifies this
      ensures Now() == Section(old(Now()), S.Cancel(sub), true, true)
    {
      CancelExactly(Now(), sub);
      subs := subs - {sub};
      if |subs| == 0 {
        StopScreencast();
      }
    }

    /** A new page: with nobody watching nothing happens, otherwise stop and start anew. */
    method RestartIfActive(page: bool, start: bool)
      modifies this
      ensures Now() == Section(old(Now()), S.Restart, page, start)
    {
      RestartExactly(Now(), page, start);
      if |subs| == 0 {
        return;
      }
      StopScreencast();
      StartSteps(Now(), page, start);
      StartScreencastLocked(page, start);
    }
  }
}
