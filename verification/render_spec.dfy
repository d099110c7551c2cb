/** The rendered catalog block, and how much of it a change of plugins can reach. */
module RenderSpec {
  import opened TextOrder
  import opened CatalogSpec

  datatype Line = Heading(origin: nat, group: string) | Item(entry: Entry)

  function LineText(line: Line): string {
    match line
    case Heading(_, group) => group + ":\n"
    case Item(e) => "  - " + e.name + ": " + e.summary + "\n"
  }

  function Text(lines: seq<Line>): string {
    if lines == [] then "" else Text(lines[..|lines| - 1]) + LineText(lines[|lines| - 1])
  }

  const OPENING := "\n\n<available_capabilities>\n"
  const CLOSING := "</available_capabilities>\nCall load_capabilities with the names you need before using them.\n"

  predicate SameSection(a: Entry, b: Entry) { a.origin == b.origin && a.group == b.group }

  /** An entry gets a heading if it is the first one or differs from the one before it in origin or group. */
  function Lines(es: seq<Entry>): seq<Line> {
    if es == [] then []
    else
      var last := es[|es| - 1];
      Lines(es[..|es| - 1])
      + (if |es| == 1 || !SameSection(es[|es| - 2], last) then [Heading(last.origin, last.group)] else [])
      + [Item(last)]
  }

  /** An empty catalog is nothing at all, not an empty block. */
  function Render(es: seq<Entry>): string {
    if es == [] then "" else OPENING + Text(Lines(es)) + CLOSING
  }

  // ---- sections ----

  /** The section the i-th line is read in: that of the nearest heading at or above it. */
  function SectionAt(lines: seq<Line>, i: int): (int, string)
    requires i < |lines|
    decreases if i < 0 then 0 else i + 1
  {
    if i < 0 then (-1, "")
    else if lines[i].Heading? then (lines[i].origin, lines[i].group)
    else SectionAt(lines, i - 1)
  }

  lemma {:induction false} SectionAtPrefix(lines: seq<Line>, more: seq<Line>, i: int)
    requires i < |lines|
    ensures SectionAt(lines + more, i) == SectionAt(lines, i)
    decreases if i < 0 then 0 else i + 1
  {
    if i >= 0 && !lines[i].Heading? {
      SectionAtPrefix(lines, more, i - 1);
    }
  }

  lemma LinesEnd(es: seq<Entry>)
    requires es != []
    ensures Lines(es) != [] && Lines(es)[|Lines(es)| - 1] == Item(es[|es| - 1])
  {
  }

  /** Every entry is listed under a heading of its own origin and group. */
  lemma {:induction false} UnderOwnHeading(es: seq<Entry>, i: nat)
    requires i < |Lines(es)| && Lines(es)[i].Item?
    ensures SectionAt(Lines(es), i) == (Lines(es)[i].entry.origin, Lines(es)[i].entry.group)
  {
    var init, last := es[..|es| - 1], es[|es| - 1];
    var before := Lines(init);
    if i < |before| {
      assert Lines(es) == before + Lines(es)[|before|..];
      SectionAtPrefix(before, Lines(es)[|before|..], i);
      UnderOwnHeading(init, i);
    } else if |Lines(es)| == |before| + 1 {
      assert Lines(es) == before + [Item(last)];
      LinesEnd(init);
      UnderOwnHeading(init, |before| - 1);
      SectionAtPrefix(before, [Item(last)], |before| - 1);
    } else {
      assert Lines(es)[|before|] == Heading(last.origin, last.group);
    }
  }

  /** The lines list every entry once, in order. */
  function Items(lines: seq<Line>): seq<Entry> {
    if lines == [] then []
    else
      var rest := Items(lines[..|lines| - 1]);
      if lines[|lines| - 1].Item? then rest + [lines[|lines| - 1].entry] else rest
  }

  lemma {:induction false} ItemsOfLines(es: seq<Entry>)
    ensures Items(Lines(es)) == es
  {
    if es == [] {
    } else {
      var init, last := es[..|es| - 1], es[|es| - 1];
      ItemsOfLines(init);
      var lines := Lines(es);
      var heading := Heading(last.origin, last.group);
      if |lines| == |Lines(init)| + 1 {
        assert lines[..|lines| - 1] == Lines(init);
      } else {
        assert lines[..|lines| - 1] == Lines(init) + [heading];
        assert (Lines(init) + [heading])[..|Lines(init)|] == Lines(init);
      }
    }
  }

  predicate HasSection(es: seq<Entry>, origin: nat, group: string) {
    exists e | e in es :: e.origin == origin && e.group == group
  }

  /** In a sorted list, an entry that opens a new section is the first of that section. */
  lemma NewSectionIsNew(es: seq<Entry>)
    requires Sorted(es) && |es| >= 2 && !SameSection(es[|es| - 2], es[|es| - 1])
    ensures !HasSection(es[..|es| - 1], es[|es| - 1].origin, es[|es| - 1].group)
  {
    var before, last := es[|es| - 2], es[|es| - 1];
    if HasSection(es[..|es| - 1], last.origin, last.group) {
      var e :| e in es[..|es| - 1] && e.origin == last.origin && e.group == last.group;
      var i :| 0 <= i < |es| - 1 && es[i] == e;
      assert !Before(last, before);
      if i < |es| - 2 {
        assert !Before(before, e);
      }
      LessTrichotomy(before.group, last.group);
    }
  }

  lemma HeadingsOfMore(es: seq<Entry>, origin: nat, group: string)
    requires es != []
    ensures var init, last := es[..|es| - 1], es[|es| - 1];
      multiset(Lines(es))[Heading(origin, group)]
      == multiset(Lines(init))[Heading(origin, group)]
         + if (|es| == 1 || !SameSection(es[|es| - 2], last)) && last.origin == origin && last.group == group
           then 1 else 0
  {
  }

  lemma SectionsOfMore(es: seq<Entry>, origin: nat, group: string)
    requires es != []
    ensures HasSection(es, origin, group) <==>
            || HasSection(es[..|es| - 1], origin, group)
            || (es[|es| - 1].origin == origin && es[|es| - 1].group == group)
  {
    assert es == es[..|es| - 1] + [es[|es| - 1]];
  }

  /** On sorted input each section gets exactly one heading, and no heading is without entries. */
  lemma {:induction false} OneHeadingEach(es: seq<Entry>, origin: nat, group: string)
    requires Sorted(es)
    ensures multiset(Lines(es))[Heading(origin, group)] == if HasSection(es, origin, group) then 1 else 0
  {
    if es == [] {
    } else {
      OneHeadingEach(es[..|es| - 1], origin, group);
      HeadingsOfMore(es, origin, group);
      SectionsOfMore(es, origin, group);
      if |es| >= 2 {
        if SameSection(es[|es| - 2], es[|es| - 1]) {
          assert es[|es| - 2] in es[..|es| - 1];
        } else {
          NewSectionIsNew(es);
        }
      }
    }
  }

  // ---- the stable prefix ----

  lemma {:induction false} LinesPrefix(b: seq<Entry>, p: seq<Entry>)
    ensures Lines(b) <= Lines(b + p)
  {
    if p == [] {
      assert b + p == b;
    } else {
      var q := p[..|p| - 1];
      LinesPrefix(b, q);
      assert (b + p)[..|b + p| - 1] == b + q;
    }
  }

  lemma {:induction false} TextPrefix(lines: seq<Line>, more: seq<Line>)
    ensures Text(lines) <= Text(lines + more)
  {
    if more == [] {
      assert lines + more == lines;
    } else {
      var init := more[..|more| - 1];
      TextPrefix(lines, init);
      assert (lines + more)[..|lines + more| - 1] == lines + init;
    }
  }

  lemma PrefixInside<T>(opening: seq<T>, a: seq<T>, b: seq<T>, closing: seq<T>)
    requires a <= b
    ensures opening + a <= opening + b + closing
  {
  }

  lemma PrefixAndRest<T>(a: seq<T>, b: seq<T>)
    requires a <= b
    ensures a + b[|a|..] == b
  {
  }

  lemma TextOfPrefix(a: seq<Line>, b: seq<Line>)
    requires a <= b
    ensures Text(a) <= Text(b)
  {
    PrefixAndRest(a, b);
    TextPrefix(a, b[|a|..]);
  }

  /** Whatever follows some entries, the opening and every line of those entries stay in place. */
  lemma RenderKeepsPrefix(b: seq<Entry>, es: seq<Entry>)
    requires b != [] && b <= es
    ensures OPENING + Text(Lines(b)) <= Render(es)
  {
    PrefixAndRest(b, es);
    LinesPrefix(b, es[|b|..]);
    TextOfPrefix(Lines(b), Lines(es));
    PrefixInside(OPENING, Text(Lines(b)), Text(Lines(es)), CLOSING);
  }

  function Builtins(es: seq<Entry>): seq<Entry> {
    if es == [] then []
    else
      var rest := Builtins(es[..|es| - 1]);
      if es[|es| - 1].origin == 0 then rest + [es[|es| - 1]] else rest
  }

  lemma {:induction false} BuiltinsCount(es: seq<Entry>, e: Entry)
    ensures multiset(Builtins(es))[e] == if e.origin == 0 then multiset(es)[e] else 0
  {
    if es == [] {
    } else {
      assert es == es[..|es| - 1] + [es[|es| - 1]];
      BuiltinsCount(es[..|es| - 1], e);
    }
  }

  /** Sorted, the builtin entries come first. */
  lemma {:induction false} BuiltinsLead(es: seq<Entry>)
    requires Sorted(es)
    ensures Builtins(es) <= es
    ensures forall i | |Builtins(es)| <= i < |es| :: es[i].origin != 0
  {
    if es == [] {
    } else {
      var init := es[..|es| - 1];
      BuiltinsLead(init);
      if |Builtins(init)| < |init| {
        assert es[|Builtins(init)|] == init[|Builtins(init)|];
      }
    }
  }

  lemma PrefixSorted(es: seq<Entry>, n: nat)
    requires n <= |es| && Sorted(es) && DistinctNames(es)
    ensures Sorted(es[..n]) && DistinctNames(es[..n])
  {
  }

  lemma BuiltinsMultiset(es: seq<Entry>, fs: seq<Entry>)
    requires multiset(es) == multiset(fs)
    ensures multiset(Builtins(es)) == multiset(Builtins(fs))
  {
    forall e ensures multiset(Builtins(es))[e] == multiset(Builtins(fs))[e] {
      BuiltinsCount(es, e);
      BuiltinsCount(fs, e);
    }
  }

  /** The builtin entries of a catalog, as they come out of it. */
  lemma BuiltinsOfCatalog(ps: seq<Listing>, r: Result)
    requires IsEntries(ps, r) && r.Ok?
    ensures var b := Builtins(r.entries);
      && b <= r.entries && Sorted(b) && DistinctNames(b)
      && multiset(b) == multiset(Builtins(Flatten(ps)))
  {
    CollectFromEmpty(ps);
    DistinctIsOrderFree(Flatten(ps), r.entries);
    BuiltinsLead(r.entries);
    PrefixSorted(r.entries, |Builtins(r.entries)|);
    BuiltinsMultiset(r.entries, Flatten(ps));
  }

  /**
    The prompt-cache promise, from providers to text: two catalogs with the same builtin
    entries, at least one, and whatever plugin entries, render with a common prefix that
    covers the opening and every builtin line.
   */
  lemma PluginsStayInTail(ps: seq<Listing>, qs: seq<Listing>, r: Result, t: Result)
    requires IsEntries(ps, r) && IsEntries(qs, t) && r.Ok? && t.Ok?
    requires multiset(Builtins(Flatten(ps))) == multiset(Builtins(Flatten(qs)))
    requires Builtins(Flatten(ps)) != []
    ensures Builtins(r.entries) == Builtins(t.entries)
    ensures var prefix := OPENING + Text(Lines(Builtins(r.entries)));
      prefix <= Render(r.entries) && prefix <= Render(t.entries)
  {
    BuiltinsOfCatalog(ps, r);
    BuiltinsOfCatalog(qs, t);
    var b := Builtins(r.entries);
    SortedIsUnique(b, Builtins(t.entries));
    assert |multiset(b)| == |Builtins(Flatten(ps))| > 0;
    RenderKeepsPrefix(b, r.entries);
    RenderKeepsPrefix(b, t.entries);
  }

  /** Why at least one builtin entry is needed: without any, the first plugin brings in the whole block. */
  lemma NoBuiltinsNoPrefix(e: Entry)
    ensures Render([]) == "" && OPENING <= Render([e])
  {
    assert OPENING <= OPENING + Text(Lines([e])) + CLOSING;
  }

  // ---- the text, line by line ----

  /** The block around the lines, its own words, and what stands in the line of a heading and of an entry. */
  lemma Wording(es: seq<Entry>, origin: nat, group: string, e: Entry)
    ensures Render(es) == if es == [] then "" else OPENING + Text(Lines(es)) + CLOSING
    ensures OPENING == "\n\n<available_capabilities>\n"
    ensures CLOSING == "</available_capabilities>\nCall load_capabilities with the names you need before using them.\n"
    ensures Text([Heading(origin, group)]) == group + ":\n"
    ensures Text([Item(e)]) == "  - " + e.name + ": " + e.summary + "\n"
  {
    assert [Heading(origin, group)][..0] == [] && [Item(e)][..0] == [];
  }

  lemma TextOfNext(lines: seq<Line>, line: Line)
    ensures Text(lines + [line]) == Text(lines) + LineText(line)
  {
    assert (lines + [line])[..|lines|] == lines;
  }

  lemma Regrouped<T>(a: seq<T>, b: seq<T>, c: seq<T>)
    ensures (a + b) + c == a + (b + c)
  {
  }

  lemma TextStep(a: seq<Line>, b: seq<Line>, line: Line)
    requires Text(a + b) == Text(a) + Text(b)
    ensures Text((a + b) + [line]) == Text(a) + Text(b + [line])
  {
    TextOfNext(a + b, line);
    TextOfNext(b, line);
    Regrouped(Text(a), Text(b), LineText(line));
  }

  lemma LastApart<T>(a: seq<T>, b: seq<T>)
    requires b != []
    ensures var init, last := b[..|b| - 1], b[|b| - 1]; b == init + [last] && a + b == (a + init) + [last]
  {
  }

  /** Lines are written one after the other. */
  lemma {:induction false} TextInOrder(a: seq<Line>, b: seq<Line>)
    ensures Text(a + b) == Text(a) + Text(b)
  {
    if b == [] {
      assert a + b == a;
    } else {
      TextInOrder(a, b[..|b| - 1]);
      TextStep(a, b[..|b| - 1], b[|b| - 1]);
      LastApart(a, b);
    }
  }
}
