/** What evictions, which do without the lock, leave running: when, and at an input. */
module ScreencastEviction {
  import opened Options
  import opened Screencast

  // ---- what evictions leave ----

  /** Without an eviction in the run nothing is left over. */
  lemma {:induction false} NoEvictionNoLeftover(states: seq<State>, steps: seq<Step>, k: nat)
    requires IsRun(states, steps) && k < |states|
    requires forall i | 0 <= i < k :: !steps[i].TakeOutside?
    ensures Leftover(states[k]) == {}
  {
    if k == 0 {
    } else {
      NoEvictionNoLeftover(states, steps, k - 1);
    }
  }

  /** A Stop is missed exactly when it falls between the Store and the Start of its screencaster. */
  lemma MissedExactly(s: State, step: Step, c: Caster)
    requires Inv(s) && Enabled(s, step) && c !in s.missed
    ensures c in Apply(s, step).missed <==> step == StopOutside(c) && StartDue(s, c)
  {
  }

  /** And then it is missed for good: once started, no later step of anybody stops that screencast. */
  lemma MissedRunsOn(s: State, step: Step, c: Caster)
    requires Inv(s) && Enabled(s, step) && c in s.missed
    ensures c in Apply(s, step).missed && (c in s.running ==> c in Apply(s, step).running)
  {
  }

  // ---- evictions at an input ----

  /** One move of the lone thread, to the place named, changing the rest of the state as named. */
  lemma Onward(s: State, t: Thread, page: bool, start: bool, next: State, pc: Pc)
    requires t in s.threads && !s.threads[t].Gone? && next.threads == s.threads[t := pc]
    requires Move(s, t, if s.threads[t].ReadingPage? then page else start) == next
    ensures Through(s, t, page, start) == Through(next, t, page, start)
  {
  }

  function At(rest: map<Thread, Pc>, t: Thread, pc: Pc, lock: Option<Thread>, subs: set<nat>, nextSub: nat,
              registered: Option<Caster>, nextCaster: Caster, running: set<Caster>, pending: set<Caster>): State {
    State(lock, rest[t := pc], subs, nextSub, registered, nextCaster, running, pending, {})
  }

  /** One subscriber, one screencast, nobody inside: where the first subscriber leaves things. */
  const WATCHED := State(None, map[0 := Gone], {0}, 1, Some(0), 1, {0}, {}, {})

  lemma FirstSubscriber()
    ensures Through(Goto(INITIAL, 0, Waiting(Subscribe)), 0, true, true) == WATCHED
  {
    var s0 := At(map[], 0, Waiting(Subscribe), None, {}, 0, None, 0, {}, {});
    var s1 := At(map[], 0, Entered(Subscribe), Some(0), {}, 0, None, 0, {}, {});
    var s2 := At(map[], 0, SubCounting, Some(0), {0}, 1, None, 0, {}, {});
    var s3 := At(map[], 0, ReadingPage, Some(0), {0}, 1, None, 0, {}, {});
    Onward(s0, 0, true, true, s1, Entered(Subscribe));
    Onward(s1, 0, true, true, s2, SubCounting);
    Onward(s2, 0, true, true, s3, ReadingPage);
    StartsAnother(map[], 0, 0, {}, {});
  }

  /** From the reading of the page on, both outcomes good. */
  lemma StartsAnother(rest: map<Thread, Pc>, t: Thread, c: Caster, running: set<Caster>, pending: set<Caster>)
    ensures Through(At(rest, t, ReadingPage, Some(t), {0}, 1, None, c, running, pending), t, true, true)
            == At(rest, t, Gone, None, {0}, 1, Some(c), c + 1, running + {c}, pending)
  {
    var s3 := At(rest, t, ReadingPage, Some(t), {0}, 1, None, c, running, pending);
    var s4 := At(rest, t, Storing, Some(t), {0}, 1, None, c, running, pending);
    var s5 := At(rest, t, Starting(c), Some(t), {0}, 1, Some(c), c + 1, running, pending);
    Onward(s3, t, true, true, s4, Storing);
    Onward(s4, t, true, true, s5, Starting(c));
    StartAndLeave(rest, t, c, running, pending);
  }

  lemma StartAndLeave(rest: map<Thread, Pc>, t: Thread, c: Caster, running: set<Caster>, pending: set<Caster>)
    ensures Through(At(rest, t, Starting(c), Some(t), {0}, 1, Some(c), c + 1, running, pending), t, true, true)
            == At(rest, t, Gone, None, {0}, 1, Some(c), c + 1, running + {c}, pending)
  {
    var s5 := At(rest, t, Starting(c), Some(t), {0}, 1, Some(c), c + 1, running, pending);
    var s6 := At(rest, t, Leaving, Some(t), {0}, 1, Some(c), c + 1, running + {c}, pending);
    var s7 := At(rest, t, Gone, None, {0}, 1, Some(c), c + 1, running + {c}, pending);
    Onward(s5, t, true, true, s6, Leaving);
    Onward(s6, t, true, true, s7, Gone);
  }

  /** An eviction takes the screencast out and a restart comes before its Stop: two run, with the lock free. */
  lemma TwoRunMeanwhile()
    ensures var s := Through(Goto(Take(WATCHED), 1, Waiting(Restart)), 1, true, true);
      s.lock.None? && s.running == {0, 1} && s.pending == {0} && s.registered == Some(1)
  {
    var rest := map[0 := Gone];
    var s0 := At(rest, 1, Waiting(Restart), None, {0}, 1, None, 1, {0}, {0});
    var s1 := At(rest, 1, Entered(Restart), Some(1), {0}, 1, None, 1, {0}, {0});
    var s2 := At(rest, 1, Taking(StartAnew), Some(1), {0}, 1, None, 1, {0}, {0});
    var s3 := At(rest, 1, ReadingPage, Some(1), {0}, 1, None, 1, {0}, {0});
    assert Goto(Take(WATCHED), 1, Waiting(Restart)) == s0;
    Onward(s0, 1, true, true, s1, Entered(Restart));
    Onward(s1, 1, true, true, s2, Taking(StartAnew));
    Onward(s2, 1, true, true, s3, ReadingPage);
    StartsAnother(rest, 1, 1, {0}, {0});
  }

  /** Taken and stopped between Store and Start, a screencast is started all the same, and nothing holds it. */
  lemma StopBetweenStoreAndStart()
    ensures var s := State(Some(0), map[0 := Starting(0)], {0}, 1, Some(0), 1, {}, {}, {});
      var s' := Through(Stop(Take(s), 0), 0, true, true);
      Inv(s) && s'.lock.None? && s'.running == {0} && s'.missed == {0} && Registered(s') + s'.pending == {}
  {
    var s := State(Some(0), map[0 := Starting(0)], {0}, 1, Some(0), 1, {}, {}, {});
    assert s.threads[0] == Starting(0);
    assert StartDue(Take(s), 0);
    var s0 := State(Some(0), map[0 := Starting(0)], {0}, 1, None, 1, {}, {}, {0});
    var s1 := State(Some(0), map[0 := Leaving], {0}, 1, None, 1, {0}, {}, {0});
    var s2 := State(None, map[0 := Gone], {0}, 1, None, 1, {0}, {}, {0});
    assert Stop(Take(s), 0) == s0;
    Onward(s0, 0, true, true, s1, Leaving);
    Onward(s1, 0, true, true, s2, Gone);
  }
}
