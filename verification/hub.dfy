/** The hub and its channels as mutable objects. A channel refuses to be used after it was closed. */
module StreamHub {
  import H = HubSpec

  class Channel {
    const id: nat
    var state: H.Channel

    constructor (id: nat)
      ensures this.id == id && state == H.Channel([], [], false)
    {
      this.id, state := id, H.Channel([], [], false);
    }

    /** A non-blocking send: a full channel drops the event. */
    method TrySend(ev: H.Event)
      requires !state.closed
      modifies this
      ensures state == H.Offer(old(state), ev)
    {
      if |state.waiting| < H.CHANNEL_SIZE {
        state := state.(waiting := state.waiting + [ev]);
      }
    }

    method Close()
      requires !state.closed
      modifies this
      ensures state == old(state).(closed := true)
    {
      state := state.(closed := true);
    }
  }

  class Hub {
    const ringCap: nat
    var count: nat
    var ring: seq<H.Event>
    var subs: map<nat, Channel>
    var nextSub: nat

    ghost var Model: H.State
    ghost var all: map<nat, Channel>     // every channel handed out, cancelled or not

    ghost predicate Valid()
      reads this, all.Values
    {
      && Model.capacity == ringCap && Model.count == count && Model.ring == ring && Model.nextSub == nextSub
      && subs.Keys == Model.subs <= all.Keys == Model.channels.Keys
      && (forall id | id in subs :: subs[id] == all[id])
      && (forall id | id in all ::
            && id < nextSub && all[id].id == id
            && all[id].state == Model.channels[id]
            && (all[id].state.closed <==> id !in subs))
    }

    constructor (ringCap: int)
      ensures Valid() && Model == H.NewHub(ringCap) && all == map[]
    {
      this.ringCap := if ringCap <= 0 then 64 else ringCap;
      count, ring, subs, nextSub := 0, [], map[], 0;
      Model, all := H.NewHub(ringCap), map[];
    }

    method Subscribe() returns (id: nat, ch: Channel)
      requires Valid()
      modifies this
      ensures Valid() && fresh(ch) && all == old(all)[id := ch] && id == old(nextSub)
      ensures Model == H.Subscribe(old(Model))
    {
      id := nextSub;
      ch := new Channel(id);
      nextSub := nextSub + 1;
      subs := subs[id := ch];
      all := all[id := ch];
      Model := H.Subscribe(Model);
    }

    /** What the returned cancel function does; the second time it finds nothing to do. */
    method Cancel(id: nat)
      requires Valid()
      modifies this`subs, this`Model, all.Values
      ensures Valid()
      ensures Model == H.Cancel(old(Model), id)
    {
      if id in subs {
        var c := subs[id];
        subs := subs - {id};
        c.Close();
        Model := H.Cancel(Model, id);
      }
    }

    /** Numbers the event, keeps it if it is status, and offers it to every subscriber. */
    method Publish(kind: H.Kind, data: int) returns (number: nat)
      requires Valid()
      modifies this`count, this`ring, this`Model, all.Values
      ensures Valid()
      ensures Model == H.Publish(old(Model), kind, data)
      ensures number == count
    {
      count := count + 1;
      var ev := H.Event(kind, count, data);
      Keep(ev);
      FanOut(ev);
      Model := H.Publish(Model, kind, data);
      number := count;
    }

    method Keep(ev: H.Event)
      modifies this`ring
      ensures ring == if H.IsStatus(ev) then H.Last(ringCap, old(ring) + [ev]) else old(ring)
    {
      if H.IsStatus(ev) {
        ring := ring + [ev];
        if |ring| > ringCap {
          ring := ring[|ring| - ringCap..];
        }
      }
    }

    /** In whatever order the map hands the subscribers out. */
    method FanOut(ev: H.Event)
      requires forall id | id in subs :: !subs[id].state.closed && id in all && subs[id] == all[id]
      requires forall id | id in all :: all[id].id == id
      modifies all.Values
      ensures forall id | id in all ::
                all[id].state == if id in subs then H.Offer(old(all[id].state), ev) else old(all[id].state)
    {
      var left := subs.Keys;
      while left != {}
        invariant left <= subs.Keys
        invariant forall id | id in all ::
                    all[id].state == if id in subs && id !in left then H.Offer(old(all[id].state), ev)
                                     else old(all[id].state)
        decreases left
      {
        var id :| id in left;
        subs[id].TrySend(ev);
        left := left - {id};
      }
    }

    method ReplaySince(last: nat) returns (out: seq<H.Event>)
      requires Valid()
      ensures out == H.ReplaySince(Model, last)
    {
      out := [];
      for i := 0 to |ring|
        invariant out == H.Above(ring[..i], last)
      {
        assert ring[..i + 1][..i] == ring[..i];
        if ring[i].number > last {
          out := out + [ring[i]];
        }
      }
      assert ring[..|ring|] == ring;
    }
  }
}
