/** Building and rendering the catalog, loop by loop. */
module Catalog {
  import opened TextOrder
  import opened CatalogSpec
  import opened RenderSpec

  /** Stands for sort.Slice: any arrangement of the same entries that respects the comparison. */
  method SortSlice(es: seq<Entry>) returns (r: seq<Entry>)
    requires DistinctNames(es)
    ensures multiset(r) == multiset(es) && Sorted(r)
  {
    r := [];
    for i := 0 to |es|
      invariant multiset(r) == multiset(es[..i]) && Sorted(r)
    {
      assert es[..i + 1] == es[..i] + [es[i]];
      SameMembers(r, es[..i]);
      r := Insert(r, es[i]);
    }
    assert es[..|es|] == es;
  }

  method Insert(list: seq<Entry>, e: Entry) returns (r: seq<Entry>)
    requires Sorted(list) && forall d | d in list :: d.name != e.name
    ensures Sorted(r) && multiset(r) == multiset(list) + multiset{e}
  {
    var i := |list|;
    while i > 0 && Before(e, list[i - 1])
      invariant 0 <= i <= |list|
      invariant forall j | i <= j < |list| :: Before(e, list[j])
    {
      i := i - 1;
    }
    r := list[..i] + [e] + list[i..];
    forall j | 0 <= j < i ensures !Before(e, list[j]) {
      InsertionPoint(list, e, i, j);
    }
    forall j | i <= j < |list| ensures !Before(list[j], e) {
      BeforeIsTotal(e, list[j]);
    }
    assert list == list[..i] + list[i..];
  }

  lemma InsertionPoint(list: seq<Entry>, e: Entry, i: nat, j: nat)
    requires Sorted(list) && j < i <= |list| && !Before(e, list[i - 1])
    requires forall d | d in list :: d.name != e.name
    ensures !Before(e, list[j])
  {
    if j < i - 1 && Before(e, list[j]) {
      BeforeIsTotal(e, list[i - 1]);
      BeforeIsTransitive(list[i - 1], e, list[j]);
    }
  }

  /** Validate, refuse duplicates, then sort. */
  method Entries(providers: seq<Listing>) returns (r: Result)
    ensures IsEntries(providers, r)
  {
    var all: seq<Entry> := [];
    var seen: map<string, string> := map[];
    CollectFromEmpty(providers);
    assert providers[0..] == providers;
    for p := 0 to |providers|
      invariant Collect([], providers) == Collect(all, providers[p..])
      invariant forall name :: name in seen <==> exists e :: e in all && e.name == name
    {
      assert providers[p..][0] == providers[p] && providers[p..][1..] == providers[p + 1..];
      if providers[p].Failed? {
        return ListFailed;
      }
      var entries := providers[p].entries;
      ghost var before := all;
      assert entries[0..] == entries;
      for i := 0 to |entries|
        invariant TakeAll(before, entries) == TakeAll(all, entries[i..])
        invariant forall name :: name in seen <==> exists e :: e in all && e.name == name
      {
        var entry := entries[i];
        assert entries[i..][0] == entry && entries[i..][1..] == entries[i + 1..];
        if !Validate(entry) {
          return Invalid(entry);
        }
        if entry.name in seen {
          return Duplicate(entry.name);
        }
        seen := seen[entry.name := entry.group];
        all := all + [entry];
      }
      assert entries[|entries|..] == [];
    }
    assert providers[|providers|..] == [];
    var sorted := SortSlice(all);
    r := Ok(sorted);
  }

  /** The next entry's lines: a heading where a section opens, then the entry. */
  lemma LinesOfNext(es: seq<Entry>, i: nat)
    requires i < |es|
    ensures i == 0 || !SameSection(es[i - 1], es[i]) ==>
            Lines(es[..i + 1]) == Lines(es[..i]) + [Heading(es[i].origin, es[i].group)] + [Item(es[i])]
    ensures i > 0 && SameSection(es[i - 1], es[i]) ==> Lines(es[..i + 1]) == Lines(es[..i]) + [Item(es[i])]
  {
    assert es[..i + 1][..i] == es[..i];
  }

  lemma TextOfMore(opening: string, lines: seq<Line>, line: Line)
    ensures opening + Text(lines + [line]) == (opening + Text(lines)) + LineText(line)
  {
    assert (lines + [line])[..|lines|] == lines;
  }

  /** One pass with the current group and origin carried along. */
  method Render(entries: seq<Entry>) returns (text: string)
    ensures text == RenderSpec.Render(entries)
  {
    if |entries| == 0 {
      return "";
    }
    var opening := OPENING;
    text := opening;
    var group, origin, first := "", 0, true;
    ghost var lines: seq<Line> := [];
    for i := 0 to |entries|
      invariant lines == Lines(entries[..i]) && text == opening + Text(lines)
      invariant first <==> i == 0
      invariant i > 0 ==> group == entries[i - 1].group && origin == entries[i - 1].origin
    {
      var entry := entries[i];
      LinesOfNext(entries, i);
      if first || entry.group != group || entry.origin != origin {
        group, origin := entry.group, entry.origin;
        TextOfMore(opening, lines, Heading(origin, group));
        text := text + (group + ":\n");
        lines := lines + [Heading(origin, group)];
      }
      first := false;
      TextOfMore(opening, lines, Item(entry));
      text := text + ("  - " + entry.name + ": " + entry.summary + "\n");
      lines := lines + [Item(entry)];
    }
    assert entries[..|entries|] == entries;
    text := text + CLOSING;
  }
}
