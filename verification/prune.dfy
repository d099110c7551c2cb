/** The pruning loop against a cache that may refuse to remove an entry. */
module Prune {
  import opened PruneSpec

  class Cache {
    const fails: Fails
    var stored: set<string>

    constructor (fails: Fails, stored: set<string>)
      ensures this.fails == fails && this.stored == stored
    {
      this.fails, this.stored := fails, stored;
    }

    method Remove(digest: string) returns (ok: bool)
      modifies this
      ensures ok == !fails(digest)
      ensures stored == if ok then old(stored) - {digest} else old(stored)
    {
      ok := !fails(digest);
      if ok {
        stored := stored - {digest};
      }
    }
  }

  function Digests(entries: seq<Entry>): set<string> { set e | e in entries :: e.digest }

  /** Sorts by age; where entries of one age end up is left open to callers. */
  method SortByAge(list: seq<Entry>) returns (order: seq<Entry>)
    ensures IsOrder(order, list)
  {
    order := [];
    for i := 0 to |list|
      invariant multiset(order) == multiset(list[..i])
      invariant OldestFirst(order)
    {
      assert list[..i + 1] == list[..i] + [list[i]];
      order := Insert(order, list[i]);
    }
    assert list[..|list|] == list;
  }

  lemma InsertedInPlace(order: seq<Entry>, i: nat, e: Entry)
    requires OldestFirst(order) && i <= |order|
    requires i > 0 ==> order[i - 1].modTime <= e.modTime
    requires forall j | i <= j < |order| :: order[j].modTime > e.modTime
    ensures OldestFirst(order[..i] + [e] + order[i..])
  {
    var out := order[..i] + [e] + order[i..];
    forall p, q | 0 <= p < q < |out| ensures out[p].modTime <= out[q].modTime {
      var before := if p < i then order[p] else if p == i then e else order[p - 1];
      var after := if q < i then order[q] else if q == i then e else order[q - 1];
      assert out[p] == before && out[q] == after;
    }
  }

  lemma InsertedMembers(order: seq<Entry>, i: nat, e: Entry)
    requires i <= |order|
    ensures multiset(order[..i] + [e] + order[i..]) == multiset(order) + multiset{e}
  {
    assert order == order[..i] + order[i..];
  }

  method Insert(order: seq<Entry>, e: Entry) returns (out: seq<Entry>)
    requires OldestFirst(order)
    ensures OldestFirst(out) && multiset(out) == multiset(order) + multiset{e}
  {
    var i := |order|;
    while i > 0 && order[i - 1].modTime > e.modTime
      invariant 0 <= i <= |order|
      invariant forall j | i <= j < |order| :: order[j].modTime > e.modTime
    {
      i := i - 1;
    }
    out := order[..i] + [e] + order[i..];
    InsertedInPlace(order, i, e);
    InsertedMembers(order, i, e);
  }

  lemma OneMore(order: seq<Entry>, i: nat)
    requires i < |order|
    ensures Sum(order[..i + 1]) == Sum(order[..i]) + order[i].size
    ensures Digests(order[..i + 1]) == Digests(order[..i]) + {order[i].digest}
  {
    assert order[..i + 1] == order[..i] + [order[i]];
    assert order[..i + 1][..i] == order[..i];
  }

  /** The entries told of as removed, in order; a dry run tells of them without removing any. */
  method PruneUnreferenced(
      cache: Cache, entries: seq<Entry>, referenced: Referenced, maxBytes: int, dryRun: bool)
    returns (out: Outcome)
    modifies cache
    ensures Possible(entries, referenced, maxBytes, if dryRun then NEVER else cache.fails, out)
    ensures cache.stored == if dryRun then old(cache.stored) else old(cache.stored) - Digests(out.removed)
  {
    var unreferenced: seq<Entry> := [];
    var freed, remaining: int := 0, 0;
    for i := 0 to |entries|
      invariant remaining == Sum(entries[..i])
      invariant unreferenced == Unreferenced(entries[..i], referenced)
    {
      assert entries[..i + 1][..i] == entries[..i];
      remaining := remaining + entries[i].size;
      if !referenced(entries[i].digest) {
        unreferenced := unreferenced + [entries[i]];
      }
    }
    assert entries[..|entries|] == entries;
    var order := SortByAge(unreferenced);
    out := RemoveInOrder(cache, entries, order, remaining, maxBytes, dryRun);
    ghost var k: nat := |out.removed|;
    assert Ran(entries, maxBytes, if dryRun then NEVER else cache.fails, order, k, out);
  }

  method RemoveInOrder(
      cache: Cache, ghost entries: seq<Entry>, order: seq<Entry>, total: int, maxBytes: int, dryRun: bool)
    returns (out: Outcome)
    requires total == Sum(entries)
    modifies cache
    ensures |out.removed| <= |order|
    ensures Ran(entries, maxBytes, if dryRun then NEVER else cache.fails, order, |out.removed|, out)
    ensures cache.stored == if dryRun then old(cache.stored) else old(cache.stored) - Digests(out.removed)
  {
    ghost var fails := if dryRun then NEVER else cache.fails;
    var freed, remaining := 0, total;
    assert order[..0] == [];
    for i := 0 to |order|
      invariant freed == Sum(order[..i]) && remaining == total - freed
      invariant forall j: nat | j < i :: !Halts(order, total, maxBytes, fails, j)
      invariant cache.stored == if dryRun then old(cache.stored) else old(cache.stored) - Digests(order[..i])
    {
      if maxBytes > 0 && remaining <= maxBytes {
        return Outcome(order[..i], freed, remaining, false);
      }
      if !dryRun {
        var ok := cache.Remove(order[i].digest);
        if !ok {
          return Outcome(order[..i], freed, remaining, true);
        }
      }
      OneMore(order, i);
      freed := freed + order[i].size;
      remaining := remaining - order[i].size;
    }
    assert order[..|order|] == order;
    return Outcome(order, freed, remaining, false);
  }
}
