/**
  The sealed log of evolution events. A seal covers the previous seal and seven texts; the
  creation time is kept beside them, unsealed, and does not count when two events are compared.
 */
module SealedLog {
  import opened Options
  import opened Chains

  datatype EvolutionEvent = EvolutionEvent(
    eventID: string, cycleID: string, stage: string, agentID: string, assetID: string,
    evidenceHash: string, decision: string, createdAt: int)

  const ZERO_TIME: int := 0

  datatype SealedEvent = SealedEvent(event: EvolutionEvent, previousSeal: string, seal: string)

  function Covered(e: EvolutionEvent): seq<string> {
    [e.eventID, e.cycleID, e.stage, e.agentID, e.assetID, e.evidenceHash, e.decision]
  }

  predicate SameEvent(a: EvolutionEvent, b: EvolutionEvent) { Covered(a) == Covered(b) }

  function Stamped(e: EvolutionEvent, now: int): EvolutionEvent {
    if e.createdAt == ZERO_TIME then e.(createdAt := now) else e
  }

  function Head(events: seq<SealedEvent>): string {
    if events == [] then "" else events[|events| - 1].seal
  }

  function Seal(h: Hash, events: seq<SealedEvent>, e: EvolutionEvent): SealedEvent {
    SealedEvent(e, Head(events), LinkHash(h, Head(events), Covered(e)))
  }

  predicate Fits(h: Hash, events: seq<SealedEvent>, i: nat)
    requires i < |events|
  {
    && events[i].previousSeal == Head(events[..i])
    && events[i].seal == LinkHash(h, events[i].previousSeal, Covered(events[i].event))
  }

  predicate Verified(h: Hash, events: seq<SealedEvent>) {
    forall i | 0 <= i < |events| :: Fits(h, events, i)
  }

  predicate UniqueIds(events: seq<SealedEvent>) {
    forall i, j | 0 <= i < j < |events| :: events[i].event.eventID != events[j].event.eventID
  }

  datatype Outcome = Sealed(entry: SealedEvent) | Refused

  function Find(events: seq<SealedEvent>, id: string): Option<SealedEvent> {
    if events == [] then None
    else if events[|events| - 1].event.eventID == id then Some(events[|events| - 1])
    else Find(events[..|events| - 1], id)
  }

  /** One append: the log afterwards and what the caller is told. */
  function Append(h: Hash, events: seq<SealedEvent>, e: EvolutionEvent, now: int): (seq<SealedEvent>, Outcome) {
    match Find(events, e.eventID)
    case Some(existing) => (events, if SameEvent(existing.event, e) then Sealed(existing) else Refused)
    case None =>
      var entry := Seal(h, events, Stamped(e, now));
      (events + [entry], Sealed(entry))
  }

  datatype Request = Request(event: EvolutionEvent, now: int)

  function After(h: Hash, start: seq<SealedEvent>, requests: seq<Request>): seq<SealedEvent> {
    if requests == [] then start
    else
      var n := |requests| - 1;
      Append(h, After(h, start, requests[..n]), requests[n].event, requests[n].now).0
  }

  lemma {:induction false} FindExactly(events: seq<SealedEvent>, id: string)
    ensures match Find(events, id)
            case Some(x) => x in events && x.event.eventID == id
            case None => forall x | x in events :: x.event.eventID != id
  {
    if events == [] {
    } else {
      FindExactly(events[..|events| - 1], id);
      assert events == events[..|events| - 1] + [events[|events| - 1]];
    }
  }

  lemma AppendKeeps(h: Hash, events: seq<SealedEvent>, e: EvolutionEvent, now: int)
    requires Verified(h, events) && UniqueIds(events)
    ensures Verified(h, Append(h, events, e, now).0) && UniqueIds(Append(h, events, e, now).0)
  {
    FindExactly(events, e.eventID);
    if Find(events, e.eventID).None? {
      var more := events + [Seal(h, events, Stamped(e, now))];
      forall i | 0 <= i < |more| ensures Fits(h, more, i) {
        assert more[..i] == events[..i];
        if i < |events| {
          assert Fits(h, events, i);
        } else {
          assert events[..i] == events;
        }
      }
      forall i, j | 0 <= i < j < |more| ensures more[i].event.eventID != more[j].event.eventID {
        assert events[i] in events;
      }
    }
  }

  /** Every log that appending can build verifies, and no event id is in it twice. */
  lemma {:induction false} ReachableLogsVerify(h: Hash, requests: seq<Request>)
    ensures Verified(h, After(h, [], requests)) && UniqueIds(After(h, [], requests))
  {
    if requests == [] {
    } else {
      var n := |requests| - 1;
      ReachableLogsVerify(h, requests[..n]);
      AppendKeeps(h, After(h, [], requests[..n]), requests[n].event, requests[n].now);
    }
  }

  /** Whatever is asked for later, an id once found keeps its entry. */
  lemma {:induction false} EntriesStay(h: Hash, start: seq<SealedEvent>, requests: seq<Request>, id: string)
    requires Find(start, id).Some?
    ensures Find(After(h, start, requests), id) == Find(start, id)
  {
    if requests == [] {
    } else {
      var n := |requests| - 1;
      var before, e := After(h, start, requests[..n]), requests[n].event;
      EntriesStay(h, start, requests[..n], id);
      if Find(before, e.eventID).None? {
        var more := Append(h, before, e, requests[n].now).0;
        assert more[..|more| - 1] == before;
      }
    }
  }

  /**
    One append, field by field. An id not in the log yet: the event goes in at the end with all its
    fields, a creation time if it had none, and a seal over the previous seal and the seven texts. An id
    that is there: nothing goes in, and the answer is the entry exactly if the seven texts agree.
   */
  lemma AppendExactly(h: Hash, events: seq<SealedEvent>, e: EvolutionEvent, now: int)
    requires UniqueIds(events)
    ensures var (log, told) := Append(h, events, e, now);
      var previous := if events == [] then "" else events[|events| - 1].seal;
      (forall x | x in events :: x.event.eventID != e.eventID) ==>
        && told.Sealed? && log == events + [told.entry]
        && told.entry.event == e.(createdAt := if e.createdAt != 0 then e.createdAt else now)
        && told.entry.previousSeal == previous
        && told.entry.seal == LinkHash(h, previous, [e.eventID, e.cycleID, e.stage, e.agentID, e.assetID,
                                                     e.evidenceHash, e.decision])
    ensures var (log, told) := Append(h, events, e, now);
      forall x | x in events && x.event.eventID == e.eventID ::
        && log == events
        && (told == Sealed(x) <==>
              && x.event.cycleID == e.cycleID && x.event.stage == e.stage && x.event.agentID == e.agentID
              && x.event.assetID == e.assetID && x.event.evidenceHash == e.evidenceHash
              && x.event.decision == e.decision)
        && (told != Sealed(x) ==> told == Refused)
  {
    FindExactly(events, e.eventID);
    forall x | x in events && x.event.eventID == e.eventID ensures Find(events, e.eventID) == Some(x) {
      var y := Find(events, e.eventID).value;
      var i :| 0 <= i < |events| && events[i] == x;
      var j :| 0 <= j < |events| && events[j] == y;
    }
  }

  /**
    Appending an event whose id was accepted earlier changes nothing, at any later time: an event equal
    in each of the seven texts gets the entry first made, one that differs in any of them is refused.
   */
  lemma ReappendExactly(
      h: Hash, start: seq<SealedEvent>, e: EvolutionEvent, now: int,
      between: seq<Request>, again: EvolutionEvent, later: int)
    requires again.eventID == e.eventID && Append(h, start, e, now).1.Sealed?
    ensures var first := Append(h, start, e, now);
            var log := After(h, first.0, between);
            Append(h, log, again, later)
            == (log, if again.cycleID == e.cycleID && again.stage == e.stage && again.agentID == e.agentID
                        && again.assetID == e.assetID && again.evidenceHash == e.evidenceHash
                        && again.decision == e.decision
                     then Sealed(first.1.entry) else Refused)
  {
    var first := Append(h, start, e, now);
    FindExactly(start, e.eventID);
    if Find(start, e.eventID).None? {
      assert first.0[..|first.0| - 1] == start;
    }
    EntriesStay(h, first.0, between, e.eventID);
    SameEventExactly(e, again);
    SameEventExactly(first.1.entry.event, e);
    SameEventExactly(first.1.entry.event, again);
  }

  lemma SameEventExactly(a: EvolutionEvent, b: EvolutionEvent)
    ensures SameEvent(a, b) <==>
            && a.eventID == b.eventID && a.cycleID == b.cycleID && a.stage == b.stage && a.agentID == b.agentID
            && a.assetID == b.assetID && a.evidenceHash == b.evidenceHash && a.decision == b.decision
  {
    var x, y := Covered(a), Covered(b);
    if x == y {
      assert x[0] == y[0] && x[1] == y[1] && x[2] == y[2] && x[3] == y[3] && x[4] == y[4] && x[5] == y[5];
      assert x[6] == y[6];
    }
  }

  // ---- what the last seal tells ----

  function Links(events: seq<SealedEvent>): seq<Link> {
    seq(|events|, i requires 0 <= i < |events| => Link(Covered(events[i].event), events[i].seal))
  }

  /** What of an entry the seals speak for. */
  function Sealing(x: SealedEvent): (seq<string>, string, string) { (Covered(x.event), x.previousSeal, x.seal) }

  function History(events: seq<SealedEvent>): seq<(seq<string>, string, string)> {
    seq(|events|, i requires 0 <= i < |events| => Sealing(events[i]))
  }

  predicate AllNulFreeEvents(events: seq<SealedEvent>) {
    forall i | 0 <= i < |events| :: NulFree(Covered(events[i].event))
  }

  lemma VerifiedIsChained(h: Hash, events: seq<SealedEvent>)
    requires Verified(h, events)
    ensures Chained(h, Links(events)) && Arity(Links(events), 7) && LastHash(Links(events)) == Head(events)
    ensures AllNulFreeEvents(events) ==> AllNulFree(Links(events))
  {
    var links := Links(events);
    forall i | 0 <= i < |links| ensures links[i].hash == LinkHash(h, LastHash(links[..i]), links[i].fields) {
      assert Fits(h, events, i);
      assert LastHash(links[..i]) == Head(events[..i]);
    }
  }

  lemma SameLinksSameHistory(h: Hash, a: seq<SealedEvent>, b: seq<SealedEvent>)
    requires Verified(h, a) && Verified(h, b) && Links(a) == Links(b)
    ensures History(a) == History(b)
  {
    var la, lb := Links(a), Links(b);
    assert |a| == |la| == |lb| == |b|;
    forall i | 0 <= i < |a| ensures History(a)[i] == History(b)[i] {
      assert la[i] == lb[i];
      assert Fits(h, a, i) && Fits(h, b, i);
      assert i > 0 ==> la[i - 1] == lb[i - 1];
    }
  }

  ghost predicate Determined(h: Hash, events: seq<SealedEvent>) {
    forall other: seq<SealedEvent> | Verified(h, other) && Head(other) == Head(events) ::
      History(other) == History(events)
  }

  lemma NulFreeIsDetermined(h: Hash, events: seq<SealedEvent>)
    requires GoodHash(h) && Verified(h, events) && AllNulFreeEvents(events)
    ensures Determined(h, events)
  {
    forall other: seq<SealedEvent> | Verified(h, other) && Head(other) == Head(events)
      ensures History(other) == History(events)
    {
      VerifiedIsChained(h, events);
      VerifiedIsChained(h, other);
      LastHashDetermines(h, Links(events), Links(other), 7);
      SameLinksSameHistory(h, events, other);
    }
  }

  function Rewritten(x: SealedEvent, k: nat): SealedEvent
    requires k < 7 && NUL in Covered(x.event)[k]
  {
    var out := Shifted(Covered(x.event), 7, k);
    x.(event := EvolutionEvent(out[0], out[1], out[2], out[3], out[4], out[5], out[6], x.event.createdAt))
  }

  lemma RewrittenSealsAlike(h: Hash, x: SealedEvent, k: nat)
    requires k < 7 && NUL in Covered(x.event)[k]
    ensures LinkHash(h, x.previousSeal, Covered(Rewritten(x, k).event)) == LinkHash(h, x.previousSeal, Covered(x.event))
    ensures Covered(Rewritten(x, k).event) != Covered(x.event)
  {
    ShiftedJoinsAlike(x.previousSeal, Covered(x.event), 7, k);
    assert Covered(Rewritten(x, k).event) == Shifted(Covered(x.event), 7, k);
  }

  lemma Exchanged(h: Hash, events: seq<SealedEvent>, i: nat, x: SealedEvent, other: seq<SealedEvent>, j: nat)
    requires Verified(h, events) && i < |events| && j < |events| && other == events[i := x]
    requires x.seal == events[i].seal && x.previousSeal == events[i].previousSeal
    requires LinkHash(h, x.previousSeal, Covered(x.event)) == LinkHash(h, x.previousSeal, Covered(events[i].event))
    ensures Fits(h, other, j)
  {
    assert Fits(h, events, j);
    if j > 0 {
      assert events[..j][j - 1] == events[j - 1] && other[..j][j - 1] == other[j - 1];
    }
  }

  lemma ExchangedVerifies(h: Hash, events: seq<SealedEvent>, i: nat, k: nat)
    requires Verified(h, events) && i < |events| && k < 7 && NUL in Covered(events[i].event)[k]
    ensures var other := events[i := Rewritten(events[i], k)];
      Verified(h, other) && Head(other) == Head(events) && History(other) != History(events)
  {
    var x := Rewritten(events[i], k);
    RewrittenSealsAlike(h, events[i], k);
    var other := events[i := x];
    forall j: nat | j < |other| ensures Fits(h, other, j) {
      Exchanged(h, events, i, x, other, j);
    }
    assert History(other)[i].0 == Covered(x.event) && History(events)[i].0 == Covered(events[i].event);
  }

  lemma NulIsNotDetermined(h: Hash, events: seq<SealedEvent>)
    requires Verified(h, events) && !AllNulFreeEvents(events)
    ensures !Determined(h, events)
  {
    var i :| 0 <= i < |events| && !NulFree(Covered(events[i].event));
    var texts := Covered(events[i].event);
    var k: nat :| k < 7 && NUL in texts[k];
    ExchangedVerifies(h, events, i, k);
  }

  /** The last seal fixes every sealed field of a verifying log if and only if no sealed text holds a NUL. */
  lemma DeterminedExactly(h: Hash, events: seq<SealedEvent>)
    requires GoodHash(h) && Verified(h, events)
    ensures Determined(h, events) <==> AllNulFreeEvents(events)
  {
    if AllNulFreeEvents(events) {
      NulFreeIsDetermined(h, events);
    } else {
      NulIsNotDetermined(h, events);
    }
  }

  /** The entries of one cycle in log order; the empty cycle id asks for all. */
  function OfCycle(events: seq<SealedEvent>, cycleID: string): (out: seq<SealedEvent>)
    ensures forall x :: x in out <==> x in events && (cycleID == "" || x.event.cycleID == cycleID)
    ensures cycleID == "" ==> out == events
  {
    if events == [] then []
    else
      var n := |events| - 1;
      var rest := OfCycle(events[..n], cycleID);
      assert events == events[..n] + [events[n]];
      if cycleID == "" || events[n].event.cycleID == cycleID then rest + [events[n]] else rest
  }

  /** Where in the log the entries of a cycle stand. */
  function PlacesOf(events: seq<SealedEvent>, cycleID: string): (at: seq<nat>)
    ensures forall i: nat :: i in at <==> i < |events| && (cycleID == "" || events[i].event.cycleID == cycleID)
    ensures forall j, k | 0 <= j < k < |at| :: at[j] < at[k]
  {
    if events == [] then []
    else
      var n := |events| - 1;
      var rest := PlacesOf(events[..n], cycleID);
      assert forall k | 0 <= k < |rest| :: rest[k] in rest;
      if cycleID == "" || events[n].event.cycleID == cycleID then rest + [n] else rest
  }

  /** They stand in the order they have in the log, and none is left out. */
  lemma {:induction false} OfCycleInOrder(events: seq<SealedEvent>, cycleID: string)
    ensures |OfCycle(events, cycleID)| == |PlacesOf(events, cycleID)|
    ensures forall k | 0 <= k < |PlacesOf(events, cycleID)| ::
              var i := PlacesOf(events, cycleID)[k]; i < |events| && OfCycle(events, cycleID)[k] == events[i]
  {
    if events == [] {
    } else {
      var n := |events| - 1;
      OfCycleInOrder(events[..n], cycleID);
      var before := PlacesOf(events[..n], cycleID);
      assert forall k | 0 <= k < |before| :: before[k] in before;
    }
  }
}
