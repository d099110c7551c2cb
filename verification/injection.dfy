/** The injecting code itself, step by step over a page that changes under it. */
module Injection {
  import opened Options
  import opened InjectionSpec

  /** The page a batch lands on: it takes calls, and answers the n-th of them as answers(n) says. */
  class InputTarget {
    var state: Target
    const answers: Answers

    constructor (state: Target, answers: Answers)
      ensures this.state == state && this.answers == answers
    {
      this.state, this.answers := state, answers;
    }

    method Call(call: Call) returns (ok: bool)
      modifies this
      ensures (state, ok) == Do(answers, old(state), call)
    {
      ok := answers(|state.calls|);
      state := (if ok then Effect(state, call) else state).(calls := state.calls + [call]);
    }
  }

  /** Every key is tried, in reverse order of pressing, whatever the others answer. */
  method Release(target: InputTarget, keys: seq<Key>) returns (stuck: set<Key>)
    modifies target
    ensures (target.state, stuck) == ReleaseKeys(target.answers, old(target.state), keys)
  {
    stuck := {};
    assert keys[..|keys|] == keys;
    for i := |keys| downto 0
      invariant ReleaseKeys(target.answers, old(target.state), keys).0
             == ReleaseKeys(target.answers, target.state, keys[..i]).0
      invariant ReleaseKeys(target.answers, old(target.state), keys).1
             == ReleaseKeys(target.answers, target.state, keys[..i]).1 + stuck
    {
      assert keys[..i + 1][..i] == keys[..i];
      var ok := target.Call(DoKeyUp(keys[i]));
      if !ok {
        stuck := stuck + {keys[i]};
      }
    }
  }

  method ReleaseMouse(target: InputTarget, buttons: seq<Button>) returns (stuck: set<Button>)
    modifies target
    ensures (target.state, stuck) == ReleaseButtons(target.answers, old(target.state), buttons)
  {
    stuck := {};
    assert buttons[..|buttons|] == buttons;
    for i := |buttons| downto 0
      invariant ReleaseButtons(target.answers, old(target.state), buttons).0
             == ReleaseButtons(target.answers, target.state, buttons[..i]).0
      invariant ReleaseButtons(target.answers, old(target.state), buttons).1
             == ReleaseButtons(target.answers, target.state, buttons[..i]).1 + stuck
    {
      assert buttons[..i + 1][..i] == buttons[..i];
      var ok := target.Call(DoMouseUp(buttons[i]));
      if !ok {
        stuck := stuck + {buttons[i]};
      }
    }
  }

  /** Presses the modifiers in order; if one cannot be pressed, lets go of those before it. */
  method HoldModifiers(target: InputTarget, tables: Tables, names: seq<string>)
    returns (held: seq<Key>, ok: bool, stuck: set<Key>)
    modifies target
    ensures var (t1, h, pressed) := PressAll(target.answers, tables, old(target.state), names, []);
      && ok == pressed
      && (ok ==> target.state == t1 && held == h)
      && (!ok ==> (target.state, stuck) == ReleaseKeys(target.answers, t1, h))
  {
    held, ok, stuck := [], true, {};
    assert names[0..] == names;
    for i := 0 to |names|
      invariant PressAll(target.answers, tables, old(target.state), names, [])
             == PressAll(target.answers, tables, target.state, names[i..], held)
    {
      assert names[i..][0] == names[i] && names[i..][1..] == names[i + 1..];
      var k := tables.modifier(names[i]);
      if k.None? {
        stuck := Release(target, held);
        return held, false, stuck;
      }
      var pressed := target.Call(DoKeyDown(k.value));
      if !pressed {
        stuck := Release(target, held);
        return held, false, stuck;
      }
      held := held + [k.value];
    }
    assert names[|names|..] == [];
  }

  method MoveAnd(target: InputTarget, call: Call) returns (ok: bool)
    modifies target
    ensures (target.state, ok) == MoveThen(target.answers, old(target.state), call)
  {
    ok := target.Call(DoMove);
    if ok {
      ok := target.Call(call);
    }
  }

  method Dispatch(target: InputTarget, tables: Tables, ev: Event) returns (ok: bool)
    modifies target
    ensures (target.state, ok) == Act(target.answers, tables, old(target.state), ev)
  {
    match ev.kind
    case MouseMove => ok := target.Call(DoMove);
    case MouseDown => ok := MoveAnd(target, DoMouseDown(MouseButton(ev.button)));
    case MouseUp => ok := MoveAnd(target, DoMouseUp(MouseButton(ev.button)));
    case Click => ok := MoveAnd(target, DoClick(MouseButton(ev.button)));
    case Wheel => ok := MoveAnd(target, DoScroll);
    case KeyDown =>
      var k := tables.key(ev.key);
      if k.None? {
        return false;
      }
      ok := target.Call(DoKeyDown(k.value));
    case KeyUp =>
      var k := tables.key(ev.key);
      if k.None? {
        return false;
      }
      ok := target.Call(DoKeyUp(k.value));
    case Char => ok := target.Call(DoText);
    case Unknown => ok := false;
  }

  method InjectEvent(target: InputTarget, tables: Tables, ev: Event) returns (ok: bool)
    modifies target
    ensures (target.state, ok) ==
            (InjectOne(target.answers, tables, old(target.state), ev).target,
             InjectOne(target.answers, tables, old(target.state), ev).ok)
  {
    var held, pressed, stuck := HoldModifiers(target, tables, ev.modifiers);
    if !pressed {
      return false;
    }
    ok := Dispatch(target, tables, ev);
    stuck := Release(target, held);
    ok := ok && stuck == {};
  }

  lemma {:induction false} RemoveLastAt<T>(list: seq<T>, x: T, i: nat)
    requires i < |list| && list[i] == x && x !in list[i + 1..]
    ensures RemoveLast(list, x) == list[..i] + list[i + 1..]
  {
    if i < |list| - 1 {
      var init := list[..|list| - 1];
      assert list[|list| - 1] in list[i + 1..];
      assert list[i + 1..] == init[i + 1..] + [list[|list| - 1]];
      RemoveLastAt(init, x, i);
    }
  }

  lemma {:induction false} RemoveLastAbsent<T>(list: seq<T>, x: T)
    requires x !in list
    ensures RemoveLast(list, x) == list
  {
    if list == [] {
    } else {
      assert list[|list| - 1] in list;
      RemoveLastAbsent(list[..|list| - 1], x);
    }
  }

  /** Searches from the end and closes the gap. */
  method Remove<T(==)>(list: seq<T>, x: T) returns (r: seq<T>)
    ensures r == RemoveLast(list, x)
  {
    for i := |list| downto 0
      invariant x !in list[i..]
    {
      if list[i] == x {
        RemoveLastAt(list, x, i);
        return list[..i] + list[i + 1..];
      }
    }
    RemoveLastAbsent(list, x);
    r := list;
  }

  method InjectBatch(target: InputTarget, tables: Tables, events: seq<Event>) returns (r: Result)
    modifies target
    ensures (target.state, r) == InjectionSpec.InjectBatch(target.answers, tables, old(target.state), events)
  {
    var buttonsDown: seq<Button>, keysDown: seq<Key> := [], [];
    for i := 0 to |events|
      invariant InjectionSpec.InjectBatch(target.answers, tables, old(target.state), events)
             == InjectFrom(target.answers, tables, target.state, events, i, Held(buttonsDown, keysDown))
    {
      var ev := events[i];
      ghost var t0 := target.state;
      OneEffect(target.answers, tables, t0, ev);
      var ok := InjectEvent(target, tables, ev);
      if !ok {
        var stuckKeys := Release(target, keysDown);
        var stuckButtons := ReleaseMouse(target, buttonsDown);
        return Partial(i, |events|, ev.kind, stuckKeys, stuckButtons);
      }
      FromStep(target.answers, tables, t0, events, i, Held(buttonsDown, keysDown));
      match ev.kind
      case MouseDown => buttonsDown := buttonsDown + [MouseButton(ev.button)];
      case MouseUp => buttonsDown := Remove(buttonsDown, MouseButton(ev.button));
      case KeyDown =>
        var k := tables.key(ev.key);
        if k.None? {
          assert false; // the press just made was of this key
        } else {
          keysDown := keysDown + [k.value];
        }
      case KeyUp =>
        var k := tables.key(ev.key);
        if k.None? {
          assert false;
        } else {
          keysDown := Remove(keysDown, k.value);
        }
      case _ =>
    }
    r := Complete;
  }
}
