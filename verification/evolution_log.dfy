/** The sealed log as the object that is appended to and verified. */
module EvolutionLog {
  import opened Options
  import opened Chains
  import S = SealedLog

  class SealedEvolutionEventLog {
    const hash: Hash
    var events: seq<S.SealedEvent>
    var byID: map<string, S.SealedEvent>

    ghost predicate Valid()
      reads this
    {
      && S.Verified(hash, events) && S.UniqueIds(events)
      && forall id :: (id in byID <==> S.Find(events, id).Some?)
                      && (id in byID ==> S.Find(events, id) == Some(byID[id]))
    }

    constructor (hash: Hash)
      ensures Valid() && events == [] && this.hash == hash
    {
      this.hash, events, byID := hash, [], map[];
    }

    /** None when the context was cancelled, before anything is looked at. */
    method Append(cancelled: bool, event: S.EvolutionEvent, now: int) returns (outcome: Option<S.Outcome>)
      requires Valid()
      modifies this
      ensures Valid()
      ensures cancelled ==> outcome == None && events == old(events)
      ensures !cancelled ==>
                (events, outcome) == (S.Append(hash, old(events), event, now).0,
                                      Some(S.Append(hash, old(events), event, now).1))
    {
      if cancelled {
        return None;
      }
      var stamped := event;
      if event.createdAt == S.ZERO_TIME {
        stamped := event.(createdAt := now);
      }
      S.AppendKeeps(hash, events, event, now);
      if stamped.eventID in byID {
        var existing := byID[stamped.eventID];
        if S.SameEvent(existing.event, stamped) {
          return Some(S.Sealed(existing));
        }
        return Some(S.Refused);
      }
      var previousSeal := "";
      if |events| > 0 {
        previousSeal := events[|events| - 1].seal;
      }
      var entry := S.SealedEvent(stamped, previousSeal, LinkHash(hash, previousSeal, S.Covered(stamped)));
      ghost var before := events;
      events := events + [entry];
      byID := byID[stamped.eventID := entry];
      assert events[..|events| - 1] == before;
      return Some(S.Sealed(entry));
    }

    method Events(cycleID: string) returns (out: seq<S.SealedEvent>)
      ensures out == S.OfCycle(events, cycleID)
    {
      out := [];
      for i := 0 to |events|
        invariant out == S.OfCycle(events[..i], cycleID)
      {
        assert events[..i + 1][..i] == events[..i];
        if cycleID == "" || events[i].event.cycleID == cycleID {
          out := out + [events[i]];
        }
      }
      assert events[..|events|] == events;
    }

    /** A log only ever appended to always verifies. */
    method Verify(cancelled: bool) returns (ok: bool)
      requires Valid()
      ensures ok == !cancelled
    {
      if cancelled {
        return false;
      }
      var mismatch := VerifyEvents(hash, events);
      ok := mismatch.None?;
    }
  }

  /** The walk itself, on any list of entries: the id of the first that does not fit. */
  method VerifyEvents(hash: Hash, events: seq<S.SealedEvent>) returns (mismatch: Option<string>)
    ensures mismatch.None? <==> S.Verified(hash, events)
    ensures mismatch.Some? ==>
              exists i | 0 <= i < |events| :: !S.Fits(hash, events, i) && mismatch.value == events[i].event.eventID
                && forall j | 0 <= j < i :: S.Fits(hash, events, j)
  {
    var previousSeal := "";
    for i := 0 to |events|
      invariant previousSeal == S.Head(events[..i])
      invariant forall j | 0 <= j < i :: S.Fits(hash, events, j)
    {
      var event := events[i];
      if event.previousSeal != previousSeal {
        assert !S.Fits(hash, events, i);
        return Some(event.event.eventID);
      }
      if LinkHash(hash, event.previousSeal, S.Covered(event.event)) != event.seal {
        assert !S.Fits(hash, events, i);
        return Some(event.event.eventID);
      }
      previousSeal := event.seal;
    }
    return None;
  }
}
