/** What a batch leaves down, whatever fails; and which batches keep the promise of the clean-up. */
module InjectionPromise {
  import opened Options
  import opened InjectionSpec

  // ---- the batch as a whole ----

  lemma AfterStep(w: Answers, tables: Tables, t: Target, events: seq<Event>, i: nat)
    requires i < |events| && After(w, tables, t, events, i + 1).ok
    ensures After(w, tables, t, events, i).ok
    ensures var p, q := After(w, tables, t, events, i), After(w, tables, t, events, i + 1);
      InjectFrom(w, tables, p.target, events, i, p.held) == InjectFrom(w, tables, q.target, events, i + 1, q.held)
  {
    var p := After(w, tables, t, events, i);
    FromStep(w, tables, p.target, events, i, p.held);
  }

  lemma {:induction false} FromAfter(w: Answers, tables: Tables, t: Target, events: seq<Event>, i: nat)
    requires i <= |events| && After(w, tables, t, events, i).ok
    ensures var p := After(w, tables, t, events, i);
      InjectBatch(w, tables, t, events) == InjectFrom(w, tables, p.target, events, i, p.held)
  {
    if i == 0 {
    } else {
      FromAfter(w, tables, t, events, i - 1);
      AfterStep(w, tables, t, events, i - 1);
    }
  }

  lemma {:induction false} FirstFailure(w: Answers, tables: Tables, t: Target, events: seq<Event>, n: nat)
    returns (i: nat)
    requires n <= |events|
    ensures i <= n && After(w, tables, t, events, i).ok
    ensures i < n ==> !After(w, tables, t, events, i + 1).ok
  {
    if n == 0 || After(w, tables, t, events, n).ok {
      i := n;
    } else {
      i := FirstFailure(w, tables, t, events, n - 1);
    }
  }

  lemma {:induction false} OkIsMonotone(w: Answers, tables: Tables, t: Target, events: seq<Event>, m: nat, n: nat)
    requires m <= n <= |events| && After(w, tables, t, events, n).ok
    ensures After(w, tables, t, events, m).ok
  {
    if m < n {
      OkIsMonotone(w, tables, t, events, m, n - 1);
    }
  }

  /** Where the batch stops: after the longest stretch of events that go through. */
  lemma BatchStops(w: Answers, tables: Tables, t: Target, events: seq<Event>) returns (i: nat)
    ensures i <= |events| && After(w, tables, t, events, i).ok
    ensures i < |events| ==> !After(w, tables, t, events, i + 1).ok
    ensures var p := After(w, tables, t, events, i);
      && (i == |events| ==> InjectBatch(w, tables, t, events) == (p.target, Complete))
      && (i < |events| ==>
            var one := InjectOne(w, tables, p.target, events[i]);
            var (t', keys, buttons) := ReleaseHeld(w, one.target, p.held);
            !one.ok && InjectBatch(w, tables, t, events) ==
                       (t', Partial(i, |events|, events[i].kind, keys, buttons)))
  {
    i := FirstFailure(w, tables, t, events, |events|);
    FromAfter(w, tables, t, events, i);
  }

  /** The batch completes exactly when every event goes through, and then it releases nothing. */
  lemma CompleteExactly(w: Answers, tables: Tables, t: Target, events: seq<Event>)
    ensures InjectBatch(w, tables, t, events).1.Complete? <==> After(w, tables, t, events, |events|).ok
    ensures After(w, tables, t, events, |events|).ok ==>
            InjectBatch(w, tables, t, events).0 == After(w, tables, t, events, |events|).target
  {
    var i := BatchStops(w, tables, t, events);
    if i < |events| && After(w, tables, t, events, |events|).ok {
      OkIsMonotone(w, tables, t, events, i + 1, |events|);
    }
  }

  /** Applied is the number of events that went through, and the next one is the one that did not. */
  lemma AppliedCounts(w: Answers, tables: Tables, t: Target, events: seq<Event>)
    requires InjectBatch(w, tables, t, events).1.Partial?
    ensures var r := InjectBatch(w, tables, t, events).1;
      && r.applied < r.total == |events|
      && After(w, tables, t, events, r.applied).ok
      && !InjectOne(w, tables, After(w, tables, t, events, r.applied).target, events[r.applied]).ok
      && r.failed == events[r.applied].kind
  {
    var i := BatchStops(w, tables, t, events);
  }

  /** After a failure every held item is tried exactly once: keys first, each list last-pressed first. */
  lemma EachHeldTriedOnce(w: Answers, tables: Tables, t: Target, events: seq<Event>)
    requires InjectBatch(w, tables, t, events).1.Partial?
    ensures var (t', r) := InjectBatch(w, tables, t, events);
      r.applied < |events| &&
      var p := After(w, tables, t, events, r.applied);
      t'.calls == InjectOne(w, tables, p.target, events[r.applied]).target.calls
                  + KeyUps(p.held.keys) + ButtonUps(p.held.buttons)
  {
    var i := BatchStops(w, tables, t, events);
    var p := After(w, tables, t, events, i);
    var t0 := InjectOne(w, tables, p.target, events[i]).target;
    ReleaseKeysCalls(w, t0, p.held.keys);
    ReleaseButtonsCalls(w, ReleaseKeys(w, t0, p.held.keys).0, p.held.buttons);
  }

  /**
    Whatever fails and wherever: what is still down was down before the batch, would not come
    up when released, or is left by the failing event itself -- a modifier of its own that would
    not come up, or its own press.
   */
  lemma DownAfterFailure(w: Answers, tables: Tables, t: Target, events: seq<Event>)
    requires InjectBatch(w, tables, t, events).1.Partial?
    ensures var (t', r) := InjectBatch(w, tables, t, events);
      r.applied < |events| &&
      var one := InjectOne(w, tables, After(w, tables, t, events, r.applied).target, events[r.applied]);
      && t'.keys <= t.keys + r.stuckKeys + one.stuck
                    + (if one.acted then OwnKeys(tables, events[r.applied]) else {})
      && t'.buttons <= t.buttons + r.stuckButtons + (if one.acted then OwnButtons(events[r.applied]) else {})
      && (one.acted ==> one.stuck != {})
  {
    var i := BatchStops(w, tables, t, events);
    DownIsHeld(w, tables, t, events, i);
    var p := After(w, tables, t, events, i);
    OneEffect(w, tables, p.target, events[i]);
    var t0 := InjectOne(w, tables, p.target, events[i]).target;
    ReleaseKeysEffect(w, t0, p.held.keys);
    ReleaseButtonsEffect(w, ReleaseKeys(w, t0, p.held.keys).0, p.held.buttons);
  }

  /** The promise of the clean-up: it holds whenever the failing event's modifiers came up. */
  lemma CleanUpPromise(w: Answers, tables: Tables, t: Target, events: seq<Event>)
    requires InjectBatch(w, tables, t, events).1.Partial?
    requires var i := InjectBatch(w, tables, t, events).1.applied;
      i < |events| ==> InjectOne(w, tables, After(w, tables, t, events, i).target, events[i]).stuck == {}
    ensures var (t', r) := InjectBatch(w, tables, t, events);
      t'.keys <= t.keys + r.stuckKeys && t'.buttons <= t.buttons + r.stuckButtons
  {
    DownAfterFailure(w, tables, t, events);
  }

  /** Whatever is down was down before the batch or is held by it. */
  predicate OnTheBooks(before: Target, held: Held, now: Target) {
    && (forall k | k in now.keys :: k in before.keys || k in held.keys)
    && (forall b | b in now.buttons :: b in before.buttons || b in held.buttons)
  }

  lemma KeysCleanedExactly(w: Answers, before: set<Key>, t: Target, keys: seq<Key>)
    ensures var (t', stuck) := ReleaseKeys(w, t, keys);
      t'.keys <= before + stuck <==> forall k | k in t.keys :: k in before || k in keys
  {
    ReleaseKeysEffect(w, t, keys);
  }

  lemma ButtonsCleanedExactly(w: Answers, before: set<Button>, t: Target, buttons: seq<Button>)
    ensures var (t', stuck) := ReleaseButtons(w, t, buttons);
      t'.buttons <= before + stuck <==> forall b | b in t.buttons :: b in before || b in buttons
  {
    ReleaseButtonsEffect(w, t, buttons);
  }

  /** The promise exactly: it holds if and only if the failing event left nothing down off the books. */
  lemma PromiseExactly(w: Answers, tables: Tables, t: Target, events: seq<Event>)
    requires InjectBatch(w, tables, t, events).1.Partial?
    ensures var (t', r) := InjectBatch(w, tables, t, events);
      r.applied < |events| &&
      var p := After(w, tables, t, events, r.applied);
      (t'.keys <= t.keys + r.stuckKeys && t'.buttons <= t.buttons + r.stuckButtons
       <==> OnTheBooks(t, p.held, InjectOne(w, tables, p.target, events[r.applied]).target))
  {
    var i := BatchStops(w, tables, t, events);
    var p := After(w, tables, t, events, i);
    var t0 := InjectOne(w, tables, p.target, events[i]).target;
    var t1 := ReleaseKeys(w, t0, p.held.keys).0;
    KeysCleanedExactly(w, t.keys, t0, p.held.keys);
    ReleaseKeysEffect(w, t0, p.held.keys);
    ButtonsCleanedExactly(w, t.buttons, t1, p.held.buttons);
    ReleaseButtonsEffect(w, t1, p.held.buttons);
  }

  /**
    And it can fail: a key pressed with a modifier that then sticks is not in the
    books, so the clean-up does not try it and it stays down with nothing reported about it.
   */
  lemma UnrecordedPress(tables: Tables, ctrl: Key, a: Key)
    requires tables.modifier("ctrl") == Some(ctrl) && tables.key("a") == Some(a) && a != ctrl
    ensures var w := (n: nat) => n != 2;
      var (t', r) := InjectBatch(w, tables, Target({}, {}, []), [Event(KeyDown, "", "a", ["ctrl"])]);
      r == Partial(0, 1, KeyDown, {}, {}) && a in t'.keys
  {
    var w := (n: nat) => n != 2;
    var t, ev := Target({}, {}, []), Event(KeyDown, "", "a", ["ctrl"]);
    var names := ["ctrl"];
    assert names[1..] == [];
    var t1, t2 := Target({ctrl}, {}, [DoKeyDown(ctrl)]), Target({ctrl, a}, {}, [DoKeyDown(ctrl), DoKeyDown(a)]);
    assert Do(w, t, DoKeyDown(ctrl)).0 == t1;
    assert [] + [ctrl] == [ctrl];
    assert PressAll(w, tables, t1, names[1..], [ctrl]) == (t1, [ctrl], true);
    assert PressAll(w, tables, t, names, []) == (t1, [ctrl], true);
    assert Do(w, t1, DoKeyDown(a)).0 == t2;
    var held := [ctrl];
    var (t3, ok) := Do(w, t2, DoKeyUp(ctrl));
    assert !ok && held[..0] == [];
    assert ReleaseKeys(w, t3, held[..0]) == (t3, {});
    assert ReleaseKeys(w, t2, held) == (t3, {ctrl});
    assert InjectOne(w, tables, t, ev) == One(t3, false, true, {ctrl});
  }

  // ---- which batches keep the promise whatever the page answers ----

  /** Every name the batch uses is in the tables, and every kind is known; the caller checks this before a batch. */
  predicate Named(tables: Tables, ev: Event) {
    && !ev.kind.Unknown?
    && (ev.kind.KeyDown? || ev.kind.KeyUp? ==> tables.key(ev.key).Some?)
    && (forall name | name in ev.modifiers :: tables.modifier(name).Some?)
  }

  predicate AllNamed(tables: Tables, events: seq<Event>) { forall ev | ev in events :: Named(tables, ev) }

  function ModifierKeys(tables: Tables, names: seq<string>): set<Key>
    requires forall name | name in names :: tables.modifier(name).Some?
  {
    set name | name in names :: tables.modifier(name).value
  }

  /** What is held before event n if all before it went through: no matter of the page. */
  function HeldBefore(tables: Tables, events: seq<Event>, n: nat): Held
    requires n <= |events|
  {
    if n == 0 then Held([], []) else Track(tables, HeldBefore(tables, events, n - 1), events[n - 1])
  }

  /** The event presses nothing but what was down before the batch or the batch holds already. */
  predicate Covered(tables: Tables, t: Target, held: Held, ev: Event)
    requires Named(tables, ev)
  {
    && (forall k | k in ModifierKeys(tables, ev.modifiers) + OwnKeys(tables, ev) :: k in t.keys || k in held.keys)
    && (forall b | b in OwnButtons(ev) :: b in t.buttons || b in held.buttons)
  }

  /** What the caller can check: no modifiers, or all it presses is covered. */
  predicate Safe(tables: Tables, t: Target, events: seq<Event>, i: nat)
    requires i < |events| && Named(tables, events[i])
  {
    events[i].modifiers == [] || Covered(tables, t, HeldBefore(tables, events, i), events[i])
  }

  /** The batch completes, or what is down after it was down before or was tried and would not come up. */
  predicate Keeps(w: Answers, tables: Tables, t: Target, events: seq<Event>) {
    var (t', r) := InjectBatch(w, tables, t, events);
    r.Partial? ==> t'.keys <= t.keys + r.stuckKeys && t'.buttons <= t.buttons + r.stuckButtons
  }

  lemma {:induction false} HeldIsBefore(w: Answers, tables: Tables, t: Target, events: seq<Event>, n: nat)
    requires n <= |events|
    ensures After(w, tables, t, events, n).held == HeldBefore(tables, events, n)
  {
    if n == 0 {
    } else {
      HeldIsBefore(w, tables, t, events, n - 1);
    }
  }

  lemma {:induction false} PressesModifiers(w: Answers, tables: Tables, t: Target, names: seq<string>, held: seq<Key>)
    requires forall name | name in names :: tables.modifier(name).Some?
    ensures forall k | k in PressAll(w, tables, t, names, held).1 :: k in held || k in ModifierKeys(tables, names)
    decreases |names|
  {
    if names == [] {
    } else {
      var k := tables.modifier(names[0]).value;
      assert names[0] in names;
      var (t1, ok) := Do(w, t, DoKeyDown(k));
      if ok {
        PressesModifiers(w, tables, t1, names[1..], held + [k]);
      }
    }
  }

  /** One event's stuck modifiers are among its modifiers. */
  lemma StuckAreModifiers(w: Answers, tables: Tables, t: Target, ev: Event)
    requires Named(tables, ev)
    ensures InjectOne(w, tables, t, ev).stuck <= ModifierKeys(tables, ev.modifiers)
  {
    PressesModifiers(w, tables, t, ev.modifiers, []);
    var (t1, held, pressed) := PressAll(w, tables, t, ev.modifiers, []);
    var (t2, acted) := if pressed then Act(w, tables, t1, ev) else (t1, false);
    ReleaseKeysEffect(w, t2, held);
  }

  /** A safe event leaves nothing off the books, whatever fails in it. */
  lemma SafeKeepsBooks(w: Answers, tables: Tables, t: Target, events: seq<Event>, i: nat)
    requires i < |events| && Named(tables, events[i]) && After(w, tables, t, events, i).ok
    requires Safe(tables, t, events, i)
    requires !InjectOne(w, tables, After(w, tables, t, events, i).target, events[i]).ok
    ensures var p := After(w, tables, t, events, i);
      OnTheBooks(t, p.held, InjectOne(w, tables, p.target, events[i]).target)
  {
    var p := After(w, tables, t, events, i);
    DownIsHeld(w, tables, t, events, i);
    HeldIsBefore(w, tables, t, events, i);
    OneEffect(w, tables, p.target, events[i]);
    StuckAreModifiers(w, tables, p.target, events[i]);
  }

  lemma SafeBatchKeeps(w: Answers, tables: Tables, t: Target, events: seq<Event>)
    requires AllNamed(tables, events) && forall i | 0 <= i < |events| :: Safe(tables, t, events, i)
    ensures Keeps(w, tables, t, events)
  {
    if InjectBatch(w, tables, t, events).1.Partial? {
      AppliedCounts(w, tables, t, events);
      PromiseExactly(w, tables, t, events);
      SafeKeepsBooks(w, tables, t, events, InjectBatch(w, tables, t, events).1.applied);
    }
  }

  // ---- and for an unsafe batch, a page on which it does not ----

  /** The page that answers well to its first n calls in all and to none after. */
  function Until(n: nat): Answers { (k: nat) => k < n }

  function ActCalls(ev: Event): nat {
    match ev.kind
    case MouseDown => 2
    case MouseUp => 2
    case Click => 2
    case Wheel => 2
    case Unknown => 0
    case _ => 1
  }

  function EventCalls(ev: Event): nat { |ev.modifiers| + ActCalls(ev) + |ev.modifiers| }

  function BatchCalls(events: seq<Event>, n: nat): nat
    requires n <= |events|
  {
    if n == 0 then 0 else BatchCalls(events, n - 1) + EventCalls(events[n - 1])
  }

  lemma {:induction false} PressGoes(n: nat, tables: Tables, t: Target, names: seq<string>, held: seq<Key>)
    requires forall name | name in names :: tables.modifier(name).Some?
    requires |t.calls| + |names| <= n
    ensures var (t', held', ok) := PressAll(Until(n), tables, t, names, held);
      && ok && |held'| == |held| + |names| && |t'.calls| == |t.calls| + |names|
      && t'.keys == t.keys + ModifierKeys(tables, names)
    decreases |names|
  {
    if names == [] {
      assert ModifierKeys(tables, names) == {};
    } else {
      var k := tables.modifier(names[0]).value;
      assert names[0] in names && names == [names[0]] + names[1..];
      var t1 := Do(Until(n), t, DoKeyDown(k)).0;
      PressGoes(n, tables, t1, names[1..], held + [k]);
      assert ModifierKeys(tables, names) == {k} + ModifierKeys(tables, names[1..]);
    }
  }

  lemma ActGoes(n: nat, tables: Tables, t: Target, ev: Event)
    requires Named(tables, ev) && |t.calls| + ActCalls(ev) <= n
    ensures var (t', ok) := Act(Until(n), tables, t, ev);
      && ok && |t'.calls| == |t.calls| + ActCalls(ev)
      && OwnKeys(tables, ev) <= t'.keys && OwnButtons(ev) <= t'.buttons
  {
  }

  lemma {:induction false} ReleaseGoes(n: nat, t: Target, keys: seq<Key>)
    requires |t.calls| + |keys| <= n
    ensures var (t', stuck) := ReleaseKeys(Until(n), t, keys);
      stuck == {} && |t'.calls| == |t.calls| + |keys|
    decreases |keys|
  {
    if keys == [] {
    } else {
      ReleaseGoes(n, Do(Until(n), t, DoKeyUp(keys[|keys| - 1])).0, keys[..|keys| - 1]);
    }
  }

  lemma OneGoes(n: nat, tables: Tables, t: Target, ev: Event)
    requires Named(tables, ev) && |t.calls| + EventCalls(ev) <= n
    ensures var one := InjectOne(Until(n), tables, t, ev);
      one.ok && |one.target.calls| == |t.calls| + EventCalls(ev)
  {
    PressGoes(n, tables, t, ev.modifiers, []);
    var (t1, held, _) := PressAll(Until(n), tables, t, ev.modifiers, []);
    ActGoes(n, tables, t1, ev);
    ReleaseGoes(n, Act(Until(n), tables, t1, ev).0, held);
  }

  lemma {:induction false} BatchGoes(n: nat, tables: Tables, t: Target, events: seq<Event>, i: nat)
    requires AllNamed(tables, events) && i <= |events| && |t.calls| + BatchCalls(events, i) <= n
    ensures var p := After(Until(n), tables, t, events, i);
      p.ok && |p.target.calls| == |t.calls| + BatchCalls(events, i)
  {
    if i == 0 {
    } else {
      BatchGoes(n, tables, t, events, i - 1);
      assert events[i - 1] in events;
      OneGoes(n, tables, After(Until(n), tables, t, events, i - 1).target, events[i - 1]);
    }
  }

  lemma ActFails(n: nat, tables: Tables, t: Target, ev: Event)
    requires n <= |t.calls|
    ensures var (t', ok) := Act(Until(n), tables, t, ev);
      !ok && t'.keys == t.keys && t'.buttons == t.buttons && n <= |t'.calls|
  {
  }

  lemma {:induction false} ReleaseFails(n: nat, t: Target, keys: seq<Key>)
    requires n <= |t.calls|
    ensures var (t', stuck) := ReleaseKeys(Until(n), t, keys);
      t'.keys == t.keys && t'.buttons == t.buttons && (keys != [] ==> stuck != {})
    decreases |keys|
  {
    if keys == [] {
    } else {
      ReleaseFails(n, Do(Until(n), t, DoKeyUp(keys[|keys| - 1])).0, keys[..|keys| - 1]);
    }
  }

  /** The modifiers go down, then nothing more goes: they stay down. */
  lemma ModifiersStay(n: nat, tables: Tables, t: Target, ev: Event)
    requires Named(tables, ev) && ev.modifiers != [] && n == |t.calls| + |ev.modifiers|
    ensures var one := InjectOne(Until(n), tables, t, ev);
      !one.ok && ModifierKeys(tables, ev.modifiers) <= one.target.keys
  {
    PressGoes(n, tables, t, ev.modifiers, []);
    var (t1, held, _) := PressAll(Until(n), tables, t, ev.modifiers, []);
    ActFails(n, tables, t1, ev);
    ReleaseFails(n, Act(Until(n), tables, t1, ev).0, held);
  }

  /** The event's own press goes too, then nothing more: it stays down, and the event has failed. */
  lemma OwnPressStays(n: nat, tables: Tables, t: Target, ev: Event)
    requires Named(tables, ev) && ev.modifiers != [] && n == |t.calls| + |ev.modifiers| + ActCalls(ev)
    ensures var one := InjectOne(Until(n), tables, t, ev);
      !one.ok && OwnKeys(tables, ev) <= one.target.keys && OwnButtons(ev) <= one.target.buttons
  {
    PressGoes(n, tables, t, ev.modifiers, []);
    var (t1, held, _) := PressAll(Until(n), tables, t, ev.modifiers, []);
    ActGoes(n, tables, t1, ev);
    ReleaseFails(n, Act(Until(n), tables, t1, ev).0, held);
  }

  /** The batch stops at the event that fails after all before it went through. */
  lemma StopsAt(w: Answers, tables: Tables, t: Target, events: seq<Event>, i: nat)
    requires i < |events| && After(w, tables, t, events, i).ok
    requires !InjectOne(w, tables, After(w, tables, t, events, i).target, events[i]).ok
    ensures InjectBatch(w, tables, t, events).1.Partial? && InjectBatch(w, tables, t, events).1.applied == i
  {
    var j := BatchStops(w, tables, t, events);
    if i < j {
      OkIsMonotone(w, tables, t, events, i + 1, j);
    } else if j < i {
      OkIsMonotone(w, tables, t, events, j + 1, i);
    }
  }

  lemma OffTheBooksBreaks(w: Answers, tables: Tables, t: Target, events: seq<Event>, i: nat)
    requires i < |events| && After(w, tables, t, events, i).ok
    requires !InjectOne(w, tables, After(w, tables, t, events, i).target, events[i]).ok
    requires !OnTheBooks(t, HeldBefore(tables, events, i),
                         InjectOne(w, tables, After(w, tables, t, events, i).target, events[i]).target)
    ensures !Keeps(w, tables, t, events)
  {
    StopsAt(w, tables, t, events, i);
    HeldIsBefore(w, tables, t, events, i);
    PromiseExactly(w, tables, t, events);
  }

  lemma UnsafeBreaks(tables: Tables, t: Target, events: seq<Event>, i: nat) returns (n: nat)
    requires AllNamed(tables, events) && i < |events| && !Safe(tables, t, events, i)
    ensures !Keeps(Until(n), tables, t, events)
  {
    var ev, held := events[i], HeldBefore(tables, events, i);
    var start := |t.calls| + BatchCalls(events, i);
    assert ev in events;
    if forall k | k in ModifierKeys(tables, ev.modifiers) :: k in t.keys || k in held.keys {
      n := start + |ev.modifiers| + ActCalls(ev);
      BatchGoes(n, tables, t, events, i);
      OwnPressStays(n, tables, After(Until(n), tables, t, events, i).target, ev);
    } else {
      n := start + |ev.modifiers|;
      BatchGoes(n, tables, t, events, i);
      ModifiersStay(n, tables, After(Until(n), tables, t, events, i).target, ev);
    }
    OffTheBooksBreaks(Until(n), tables, t, events, i);
  }

  /**
    Which batches keep the promise on every page: exactly those in which each event has no modifiers,
    or presses, modifiers and itself, only what was down before the batch or the batch holds by then.
   */
  lemma KeepsExactly(tables: Tables, t: Target, events: seq<Event>)
    requires AllNamed(tables, events)
    ensures (forall w: Answers :: Keeps(w, tables, t, events))
            <==> (forall i | 0 <= i < |events| :: Safe(tables, t, events, i))
  {
    if forall i | 0 <= i < |events| :: Safe(tables, t, events, i) {
      forall w: Answers ensures Keeps(w, tables, t, events) {
        SafeBatchKeeps(w, tables, t, events);
      }
    } else {
      var i :| 0 <= i < |events| && !Safe(tables, t, events, i);
      var n := UnsafeBreaks(tables, t, events, i);
      assert !Keeps(Until(n), tables, t, events);
    }
  }
}
