/**
  The hash-chained audit log. An event's hash covers the previous hash, five texts and the
  creation stamp; its origin is carried along uncovered.
 */
module AuditLog {
  import opened Options
  import opened Chains

  /** Prints an instant in UTC with nanoseconds. */
  type Clock = int -> string

  ghost predicate GoodClock(clock: Clock) { forall t :: NUL !in clock(t) }

  datatype AuditEvent = AuditEvent(
    id: string, requestID: string, subjectType: string, subjectID: string, action: string,
    createdAt: int, origin: string, hash: string)

  function Texts(e: AuditEvent): seq<string> { [e.id, e.requestID, e.subjectType, e.subjectID, e.action] }

  function Covered(clock: Clock, e: AuditEvent): seq<string> { Texts(e) + [clock(e.createdAt)] }

  function History(clock: Clock, events: seq<AuditEvent>): seq<seq<string>> {
    seq(|events|, i requires 0 <= i < |events| => Covered(clock, events[i]))
  }

  function Links(clock: Clock, events: seq<AuditEvent>): seq<Link> {
    seq(|events|, i requires 0 <= i < |events| => Link(Covered(clock, events[i]), events[i].hash))
  }

  function Head(events: seq<AuditEvent>): string {
    if events == [] then "" else events[|events| - 1].hash
  }

  predicate Fits(h: Hash, clock: Clock, events: seq<AuditEvent>, i: nat)
    requires i < |events|
  {
    events[i].hash == LinkHash(h, Head(events[..i]), Covered(clock, events[i]))
  }

  predicate Verified(h: Hash, clock: Clock, events: seq<AuditEvent>) {
    forall i | 0 <= i < |events| :: Fits(h, clock, events, i)
  }

  lemma FitsIsLinked(h: Hash, clock: Clock, events: seq<AuditEvent>, i: nat)
    requires i < |events|
    ensures var links := Links(clock, events);
      Fits(h, clock, events, i) <==> links[i].hash == LinkHash(h, LastHash(links[..i]), links[i].fields)
  {
    assert LastHash(Links(clock, events)[..i]) == Head(events[..i]);
  }

  lemma VerifiedIsChained(h: Hash, clock: Clock, events: seq<AuditEvent>)
    ensures Verified(h, clock, events) <==> Chained(h, Links(clock, events))
    ensures LastHash(Links(clock, events)) == Head(events)
  {
    if Verified(h, clock, events) {
      forall i | 0 <= i < |events|
        ensures Links(clock, events)[i].hash
                == LinkHash(h, LastHash(Links(clock, events)[..i]), Links(clock, events)[i].fields)
      {
        assert Fits(h, clock, events, i);
        FitsIsLinked(h, clock, events, i);
      }
    }
    if Chained(h, Links(clock, events)) {
      forall i | 0 <= i < |events| ensures Fits(h, clock, events, i) {
        FitsIsLinked(h, clock, events, i);
      }
    }
  }

  /** Walks the chain and reports the id of the first event whose hash does not fit. */
  method VerifyAuditEvents(h: Hash, clock: Clock, events: seq<AuditEvent>) returns (mismatch: Option<string>)
    ensures mismatch.None? <==> Verified(h, clock, events)
    ensures mismatch.Some? ==>
              exists i | 0 <= i < |events| :: !Fits(h, clock, events, i) && mismatch.value == events[i].id
                && forall j | 0 <= j < i :: Fits(h, clock, events, j)
  {
    var previousHash := "";
    for i := 0 to |events|
      invariant previousHash == Head(events[..i])
      invariant forall j | 0 <= j < i :: Fits(h, clock, events, j)
    {
      if events[i].hash != LinkHash(h, previousHash, Covered(clock, events[i])) {
        assert !Fits(h, clock, events, i);
        return Some(events[i].id);
      }
      previousHash := events[i].hash;
    }
    return None;
  }

  // ---- what the log comes to hold ----

  function Ids(events: seq<AuditEvent>): set<string> { set e | e in events :: e.id }

  /** An id already seen is ignored, whatever else the event says. */
  function Appended(h: Hash, clock: Clock, events: seq<AuditEvent>, e: AuditEvent): seq<AuditEvent> {
    if e.id in Ids(events) then events
    else events + [e.(hash := LinkHash(h, Head(events), Covered(clock, e)))]
  }

  function Logged(h: Hash, clock: Clock, appended: seq<AuditEvent>): seq<AuditEvent> {
    if appended == [] then []
    else Appended(h, clock, Logged(h, clock, appended[..|appended| - 1]), appended[|appended| - 1])
  }

  predicate UniqueIds(events: seq<AuditEvent>) {
    forall i, j | 0 <= i < j < |events| :: events[i].id != events[j].id
  }

  lemma AppendKeeps(h: Hash, clock: Clock, events: seq<AuditEvent>, e: AuditEvent)
    requires Verified(h, clock, events) && UniqueIds(events)
    ensures Verified(h, clock, Appended(h, clock, events, e)) && UniqueIds(Appended(h, clock, events, e))
  {
    if e.id !in Ids(events) {
      var more := Appended(h, clock, events, e);
      forall i | 0 <= i < |more| ensures Fits(h, clock, more, i) {
        assert more[..i] == events[..i];
        if i < |events| {
          assert Fits(h, clock, events, i);
        } else {
          assert events[..i] == events;
        }
      }
      forall i, j | 0 <= i < j < |more| ensures more[i].id != more[j].id {
        assert events[i] in events;
      }
    }
  }

  /** A new id goes in at the end, all fields kept, chained to what was last; a seen one changes nothing. */
  lemma AppendExactly(h: Hash, clock: Clock, events: seq<AuditEvent>, e: AuditEvent)
    ensures var previous := if events == [] then "" else events[|events| - 1].hash;
      Appended(h, clock, events, e) ==
        if exists x :: x in events && x.id == e.id then events
        else events + [e.(hash := LinkHash(h, previous, [e.id, e.requestID, e.subjectType, e.subjectID, e.action,
                                                        clock(e.createdAt)]))]
  {
    assert Covered(clock, e)
           == [e.id, e.requestID, e.subjectType, e.subjectID, e.action, clock(e.createdAt)];
  }

  /** Every log that appending can build verifies, and no id is in it twice. */
  lemma {:induction false} ReachableLogsVerify(h: Hash, clock: Clock, appended: seq<AuditEvent>)
    ensures Verified(h, clock, Logged(h, clock, appended)) && UniqueIds(Logged(h, clock, appended))
  {
    if appended == [] {
    } else {
      var n := |appended| - 1;
      ReachableLogsVerify(h, clock, appended[..n]);
      AppendKeeps(h, clock, Logged(h, clock, appended[..n]), appended[n]);
    }
  }

  function FirstWith(events: seq<AuditEvent>, id: string): Option<AuditEvent> {
    if events == [] then None
    else
      var n := |events| - 1;
      var found := FirstWith(events[..n], id);
      if found.Some? then found else if events[n].id == id then Some(events[n]) else None
  }

  lemma {:induction false} FoundIfThere(events: seq<AuditEvent>, id: string)
    ensures FirstWith(events, id).Some? <==> id in Ids(events)
    ensures FirstWith(events, id).Some? ==> FirstWith(events, id).value in events
  {
    if events == [] {
    } else {
      var n := |events| - 1;
      FoundIfThere(events[..n], id);
      assert events == events[..n] + [events[n]];
      assert Ids(events) == Ids(events[..n]) + {events[n].id};
    }
  }

  /** Under each id the log holds what was first appended under it, but for the hash. */
  lemma {:induction false} FirstAppendedWins(h: Hash, clock: Clock, appended: seq<AuditEvent>, id: string)
    ensures var kept, first := FirstWith(Logged(h, clock, appended), id), FirstWith(appended, id);
      if first.None? then kept.None? else kept.Some? && kept.value.(hash := first.value.hash) == first.value
  {
    if appended == [] {
    } else {
      var n := |appended| - 1;
      var events, e := Logged(h, clock, appended[..n]), appended[n];
      FirstAppendedWins(h, clock, appended[..n], id);
      FoundIfThere(events, e.id);
      FirstAppendedWins(h, clock, appended[..n], e.id);
      if e.id !in Ids(events) {
        var more := Appended(h, clock, events, e);
        assert more[..|more| - 1] == events;
      }
    }
  }

  // ---- what the last hash tells ----

  predicate AllTextsNulFree(events: seq<AuditEvent>) {
    forall i | 0 <= i < |events| :: NulFree(Texts(events[i]))
  }

  /** No other verifying log with the same last hash covers other fields. */
  ghost predicate Determined(h: Hash, clock: Clock, events: seq<AuditEvent>) {
    forall other: seq<AuditEvent> | Verified(h, clock, other) && Head(other) == Head(events) ::
      History(clock, other) == History(clock, events)
  }

  lemma LinksShape(clock: Clock, events: seq<AuditEvent>)
    ensures Arity(Links(clock, events), 6)
    ensures GoodClock(clock) && AllTextsNulFree(events) ==> AllNulFree(Links(clock, events))
  {
  }

  lemma SameLinksSameHistory(clock: Clock, a: seq<AuditEvent>, b: seq<AuditEvent>)
    requires Links(clock, a) == Links(clock, b)
    ensures History(clock, a) == History(clock, b)
  {
    var la, lb := Links(clock, a), Links(clock, b);
    assert |a| == |la| == |lb| == |b|;
    forall i | 0 <= i < |a| ensures History(clock, a)[i] == History(clock, b)[i] {
      assert la[i].fields == lb[i].fields;
    }
  }

  lemma NulFreeIsDetermined(h: Hash, clock: Clock, events: seq<AuditEvent>)
    requires GoodHash(h) && GoodClock(clock) && Verified(h, clock, events) && AllTextsNulFree(events)
    ensures Determined(h, clock, events)
  {
    forall other: seq<AuditEvent> | Verified(h, clock, other) && Head(other) == Head(events)
      ensures History(clock, other) == History(clock, events)
    {
      VerifiedIsChained(h, clock, events);
      VerifiedIsChained(h, clock, other);
      LinksShape(clock, events);
      LinksShape(clock, other);
      LastHashDetermines(h, Links(clock, events), Links(clock, other), 6);
      SameLinksSameHistory(clock, events, other);
    }
  }

  /** The event with the text behind a NUL moved to the next field (or, from the last text, back). */
  function Rewritten(e: AuditEvent, k: nat): AuditEvent
    requires k < 5 && NUL in Texts(e)[k]
  {
    var out := Shifted(Texts(e), 5, k);
    e.(id := out[0], requestID := out[1], subjectType := out[2], subjectID := out[3], action := out[4])
  }

  lemma RewrittenHashesAlike(h: Hash, clock: Clock, e: AuditEvent, k: nat, p: string)
    requires k < 5 && NUL in Texts(e)[k]
    ensures LinkHash(h, p, Covered(clock, Rewritten(e, k))) == LinkHash(h, p, Covered(clock, e))
    ensures Covered(clock, Rewritten(e, k)) != Covered(clock, e)
  {
    var texts, stamp := Texts(e), [clock(e.createdAt)];
    ShiftedJoinsAlike(p, texts, 5, k);
    assert Texts(Rewritten(e, k)) == Shifted(texts, 5, k);
    ShiftedJoinsAlike(p, texts + stamp, 5, k);
    assert Shifted(texts + stamp, 5, k) == Shifted(texts, 5, k) + stamp;
    assert Covered(clock, e)[..5] == texts && Covered(clock, Rewritten(e, k))[..5] == Shifted(texts, 5, k);
  }

  /** One event exchanged for another that carries the same hash: only its own place may stop fitting. */
  lemma Exchanged(h: Hash, clock: Clock, events: seq<AuditEvent>, i: nat, e: AuditEvent, other: seq<AuditEvent>,
                  j: nat)
    requires Verified(h, clock, events) && i < |events| && e.hash == events[i].hash
    requires other == events[i := e] && j < |events|
    ensures Head(other[..j]) == Head(events[..j])
    ensures j != i ==> Fits(h, clock, other, j)
    ensures j == i ==> (Fits(h, clock, other, j) <==>
              LinkHash(h, Head(events[..j]), Covered(clock, e))
              == LinkHash(h, Head(events[..j]), Covered(clock, events[j])))
  {
    assert Fits(h, clock, events, j);
    if j > 0 {
      assert events[..j][j - 1] == events[j - 1] && other[..j][j - 1] == other[j - 1];
    }
  }

  lemma NulIsNotDetermined(h: Hash, clock: Clock, events: seq<AuditEvent>)
    requires GoodHash(h) && Verified(h, clock, events) && !AllTextsNulFree(events)
    ensures !Determined(h, clock, events)
  {
    var i :| 0 <= i < |events| && !NulFree(Texts(events[i]));
    var texts := Texts(events[i]);
    var k: nat :| k < 5 && NUL in texts[k];
    RewrittenVerifies(h, clock, events, i, k);
  }

  lemma RewrittenVerifies(h: Hash, clock: Clock, events: seq<AuditEvent>, i: nat, k: nat)
    requires Verified(h, clock, events) && i < |events| && k < 5 && NUL in Texts(events[i])[k]
    ensures var other := events[i := Rewritten(events[i], k)];
      Verified(h, clock, other) && Head(other) == Head(events) && History(clock, other) != History(clock, events)
  {
    var e := Rewritten(events[i], k);
    RewrittenHashesAlike(h, clock, events[i], k, Head(events[..i]));
    var other := events[i := e];
    forall j: nat | j < |other| ensures Fits(h, clock, other, j) {
      Exchanged(h, clock, events, i, e, other, j);
    }
    assert Head(other) == Head(events);
    assert History(clock, other)[i] != History(clock, events)[i];
  }

  /** The last hash fixes the length and every covered field of a verifying log if and only if no text holds a NUL. */
  lemma DeterminedExactly(h: Hash, clock: Clock, events: seq<AuditEvent>)
    requires GoodHash(h) && GoodClock(clock) && Verified(h, clock, events)
    ensures Determined(h, clock, events) <==> AllTextsNulFree(events)
  {
    if AllTextsNulFree(events) {
      NulFreeIsDetermined(h, clock, events);
    } else {
      NulIsNotDetermined(h, clock, events);
    }
  }

  lemma HeadIsNulFree(h: Hash, clock: Clock, events: seq<AuditEvent>, i: nat)
    requires GoodHash(h) && Verified(h, clock, events) && i <= |events|
    ensures NUL !in Head(events[..i])
  {
    if i > 0 {
      assert Fits(h, clock, events, i - 1);
    }
  }

  lemma CoveredExactly(clock: Clock, a: AuditEvent, b: AuditEvent)
    ensures Covered(clock, a) == Covered(clock, b) <==>
            && a.id == b.id && a.requestID == b.requestID && a.subjectType == b.subjectType
            && a.subjectID == b.subjectID && a.action == b.action && clock(a.createdAt) == clock(b.createdAt)
  {
    var x, y := Covered(clock, a), Covered(clock, b);
    if x == y {
      assert x[0] == y[0] && x[1] == y[1] && x[2] == y[2] && x[3] == y[3] && x[4] == y[4] && x[5] == y[5];
    }
  }

  /**
    An edit of one event that leaves its hash alone is found, at that event, exactly when it touched
    a covered field.
   */
  lemma EditFoundExactly(
      h: Hash, clock: Clock, events: seq<AuditEvent>, i: nat, e: AuditEvent, edited: seq<AuditEvent>)
    requires GoodHash(h) && GoodClock(clock) && Verified(h, clock, events) && i < |events|
    requires NulFree(Texts(events[i])) && e.hash == events[i].hash && edited == events[i := e]
    ensures Verified(h, clock, edited) <==>
            && e.id == events[i].id && e.requestID == events[i].requestID && e.subjectType == events[i].subjectType
            && e.subjectID == events[i].subjectID && e.action == events[i].action
            && clock(e.createdAt) == clock(events[i].createdAt)
    ensures forall j | 0 <= j < |edited| && j != i :: Fits(h, clock, edited, j)
  {
    forall j: nat | j < |edited| && j != i ensures Fits(h, clock, edited, j) {
      Exchanged(h, clock, events, i, e, edited, j);
    }
    Exchanged(h, clock, events, i, e, edited, i);
    HeadIsNulFree(h, clock, events, i);
    CoveredExactly(clock, e, events[i]);
    if Fits(h, clock, edited, i) {
      LinkDetermined(h, Head(events[..i]), Covered(clock, events[i]), Head(events[..i]), Covered(clock, e));
    }
  }

  // ---- at an input ----

  /** Appended to an empty log, the NUL in its second text ... */
  const WITH_NUL := AuditEvent("id", "r" + [NUL] + "s", "type", "subject", "action", 0, "", "")

  /** ... and the event that hashes alike, what lay behind the NUL in front of its third text. */
  const MOVED_ON := AuditEvent("id", "r", "s" + [NUL] + "type", "subject", "action", 0, "", "")

  /** Two logs, each built by one append, that both verify, with the same last hash and different fields. */
  lemma TwoLogsOneHead(h: Hash, clock: Clock)
    ensures var a, b := Appended(h, clock, [], WITH_NUL), Appended(h, clock, [], MOVED_ON);
      && Verified(h, clock, a) && Verified(h, clock, b) && Head(a) == Head(b)
      && History(clock, a) != History(clock, b)
  {
    var a, b := Appended(h, clock, [], WITH_NUL), Appended(h, clock, [], MOVED_ON);
    AppendKeeps(h, clock, [], WITH_NUL);
    AppendKeeps(h, clock, [], MOVED_ON);
    MovedHashesAlike(clock);
    assert History(clock, a)[0] == Covered(clock, WITH_NUL) && History(clock, b)[0] == Covered(clock, MOVED_ON);
    assert Covered(clock, WITH_NUL)[1] != Covered(clock, MOVED_ON)[1];
  }

  lemma MovedHashesAlike(clock: Clock)
    ensures Join([""] + Covered(clock, WITH_NUL)) == Join([""] + Covered(clock, MOVED_ON))
  {
    var x, y := [""] + Covered(clock, WITH_NUL), [""] + Covered(clock, MOVED_ON);
    ExchangeAt(x, 2, "r", "s", "type");
    assert x[2 := "r"][3 := "s" + [NUL] + "type"] == y;
  }

  // ---- the log ----

  class HashChainAuditLog {
    var events: seq<AuditEvent>
    var seenIDs: set<string>
    const hash: Hash
    const clock: Clock

    ghost predicate Valid()
      reads this
    {
      seenIDs == Ids(events) && Verified(hash, clock, events) && UniqueIds(events)
    }

    constructor (hash: Hash, clock: Clock)
      ensures Valid() && events == [] && this.hash == hash && this.clock == clock
    {
      this.hash, this.clock, events, seenIDs := hash, clock, [], {};
    }

    /** A cancelled context stops the append before anything is looked at. */
    method Append(cancelled: bool, event: AuditEvent) returns (ok: bool)
      requires Valid()
      modifies this
      ensures Valid() && ok == !cancelled
      ensures events == if cancelled then old(events) else Appended(hash, clock, old(events), event)
    {
      if cancelled {
        return false;
      }
      AppendKeeps(hash, clock, events, event);
      if event.id in seenIDs {
        return true;
      }
      var previousHash := "";
      if |events| > 0 {
        previousHash := events[|events| - 1].hash;
      }
      var stored := event.(hash := LinkHash(hash, previousHash, Covered(clock, event)));
      events := events + [stored];
      seenIDs := seenIDs + {event.id};
      return true;
    }

    method VerifyChain(cancelled: bool) returns (ok: bool, mismatch: Option<string>)
      requires Valid()
      ensures ok == !cancelled && mismatch == None
    {
      if cancelled {
        return false, None;
      }
      mismatch := VerifyAuditEvents(hash, clock, events);
      ok := mismatch.None?;
    }
  }
}
