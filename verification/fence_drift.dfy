/**
  When the loops are right: lowercasing must not have moved the tags. Bytes in front of a tag that
  grow or shrink under lowercasing make the slice miss it.
 */
module FenceDrift {
  import opened Options
  import opened FenceSearch
  import opened FenceSpec

  /** No occurrence of the tag lies elsewhere in the lowercased text. */
  predicate Steady(word: Words, s: string, tag: string) {
    forall p: nat | p < |s| && Occurs(s, p, tag) :: Lowered(word, s, p) == p
  }

  predicate AllSteady(word: Words, s: string) { Steady(word, s, CLOSE) && Steady(word, s, OPEN) }

  lemma SteadyAscii(word: Words, s: string)
    requires forall c | c in s :: Ascii(c)
    ensures AllSteady(word, s)
  {
    forall p: nat | p < |s| ensures Lowered(word, s, p) == p {
      LowerOfAscii(word, s[..p]);
    }
  }

  // ---- one step ----

  lemma CutTooLate(s: string, p: nat, i: nat, tag: string)
    requires TagLike(tag) && Occurs(s, p, tag) && p < i && i + |tag| <= |s|
    ensures s[..i] + PATCH + s[i + |tag|..] != Patched(s, p, tag)
  {
    Tags();
    OccurrenceIsAscii(s, p, tag);
    assert (s[..i] + PATCH + s[i + |tag|..])[p] == '<';
    assert Patched(s, p, tag)[p] == '[';
  }

  lemma CutTooEarly(s: string, p: nat, i: nat, tag: string)
    requires TagLike(tag) && Occurs(s, p, tag) && i < p
    ensures s[..i] + PATCH + s[i + |tag|..] != Patched(s, p, tag)
  {
    Tags();
    OccurrenceIsAscii(s, p, tag);
    assert (s[..i] + PATCH + s[i + |tag|..])[p + 15] == s[p + |tag| - 1];
    assert Patched(s, p, tag)[p + 15] == ']';
  }

  /** A step replaces the tag it found exactly when lowercasing keeps the length of what comes before. */
  lemma StepExactly(word: Words, s: string, tag: string)
    requires GoodWords(word) && TagLike(tag) && First(s, tag).Some?
    ensures var p := First(s, tag).value;
      TakeStep(word, s, tag) == Cut(Patched(s, p, tag)) <==> Lowered(word, s, p) == p
  {
    var p := First(s, tag).value;
    var i := Lowered(word, s, p);
    IndexOfFirst(word, s, tag);
    if i + |tag| <= |s| {
      if p < i {
        CutTooLate(s, p, i, tag);
      } else if i < p {
        CutTooEarly(s, p, i, tag);
      }
    }
  }

  lemma StopsExactly(word: Words, s: string, tag: string)
    requires GoodWords(word) && TagLike(tag)
    ensures TakeStep(word, s, tag) == Finished <==> Free(s, tag)
  {
    IndexOfFirst(word, s, tag);
    if First(s, tag).Some? {
      assert Occurs(s, First(s, tag).value, tag);
    }
  }

  // ---- a replacement moves no other tag ----

  lemma LowerAround(word: Words, pre: string, mid: string, post: string)
    requires mid != [] && forall c | c in mid :: Ascii(c)
    ensures |Lower(word, pre + mid + post)| == |Lower(word, pre)| + |mid| + |Lower(word, post)|
  {
    assert mid[0] in mid && mid[|mid| - 1] in mid;
    LowerOfAscii(word, mid);
    LowerSplits(word, pre, mid);
    var start := pre + mid;
    assert start[|start| - 1] == mid[|mid| - 1];
    LowerSplits(word, start, post);
  }

  lemma TagIsAscii(s: string, p: nat, tag: string)
    requires TagLike(tag) && Occurs(s, p, tag)
    ensures forall c | c in s[p..p + |tag|] :: Ascii(c)
  {
    OccurrenceIsAscii(s, p, tag);
  }

  lemma LoweredBehindPatch(word: Words, s: string, p: nat, tag: string, q: nat)
    requires TagLike(tag) && Occurs(s, p, tag) && p + |tag| <= q <= |s|
    ensures var r: nat := q - |tag| + |PATCH|;
      r <= |Patched(s, p, tag)| && Lowered(word, Patched(s, p, tag), r) - r == Lowered(word, s, q) - q
  {
    Tags();
    var pre, mid, post := s[..p], s[p..p + |tag|], s[p + |tag|..q];
    TagIsAscii(s, p, tag);
    LowerAround(word, pre, mid, post);
    LowerAround(word, pre, PATCH, post);
    StartsSplit(s, p, tag, q);
  }

  lemma StartsSplit(s: string, p: nat, tag: string, q: nat)
    requires p + |tag| <= q <= |s|
    ensures s[..q] == s[..p] + s[p..p + |tag|] + s[p + |tag|..q]
    ensures q - |tag| + |PATCH| <= |Patched(s, p, tag)|
    ensures Patched(s, p, tag)[..q - |tag| + |PATCH|] == s[..p] + PATCH + s[p + |tag|..q]
  {
  }

  /** A tag of the patched text was aimed at before as it is now. */
  lemma AimKept(word: Words, s: string, p: nat, tag: string, r: nat, other: string)
    requires TagLike(tag) && TagLike(other) && Occurs(s, p, tag) && Steady(word, s, other)
    requires Occurs(Patched(s, p, tag), r, other)
    ensures Lowered(word, Patched(s, p, tag), r) == r
  {
    Tags();
    if r < p {
      BeforeThePatch(s, p, tag, r, other);
      assert Patched(s, p, tag)[..r] == s[..r] && Lowered(word, s, r) == r;
    } else if r < p + |PATCH| {
      InThePatch(s, p, tag, r, other);
    } else {
      var q := r - |PATCH| + |tag|;
      BehindThePatch(s, p, tag, q, other);
      assert q < |s| && Lowered(word, s, q) == q;
      LoweredBehindPatch(word, s, p, tag, q);
    }
  }

  lemma SteadyAfterPatch(word: Words, s: string, p: nat, tag: string, other: string)
    requires TagLike(tag) && TagLike(other) && Occurs(s, p, tag) && Steady(word, s, other)
    ensures Steady(word, Patched(s, p, tag), other)
  {
    var out := Patched(s, p, tag);
    forall r: nat | r < |out| && Occurs(out, r, other) ensures Lowered(word, out, r) == r {
      AimKept(word, s, p, tag, r, other);
    }
  }

  lemma SteadyBeforePatch(word: Words, s: string, p: nat, tag: string, other: string)
    requires TagLike(tag) && TagLike(other) && Occurs(s, p, tag) && Lowered(word, s, p) == p
    requires Steady(word, Patched(s, p, tag), other)
    ensures Steady(word, s, other)
  {
    Tags();
    var out := Patched(s, p, tag);
    forall q: nat | q < |s| && Occurs(s, q, other) ensures Lowered(word, s, q) == q {
      if q < p {
        BeforeThePatch(s, p, tag, q, other);
        assert out[..q] == s[..q];
      } else if p < q < p + |tag| {
        InTheTag(s, p, tag, q, other);
      } else if p < q {
        var r := q - |tag| + 16;
        BehindThePatch(s, p, tag, q, other);
        LoweredBehindPatch(word, s, p, tag, q);
        assert r < |out|;
      }
    }
  }

  // ---- whole runs ----

  /** Every step of the loop for one tag replaces the tag it found. */
  predicate ExactPass(word: Words, s: string, tag: string)
    requires TagLike(tag)
    decreases Angles(s)
  {
    match First(s, tag)
    case None => true
    case Some(p) =>
      PatchingEnds(s, p, tag);
      TakeStep(word, s, tag) == Cut(Patched(s, p, tag)) && ExactPass(word, Patched(s, p, tag), tag)
  }

  lemma {:induction false} ExactPassExactly(word: Words, s: string, tag: string)
    requires GoodWords(word) && TagLike(tag)
    ensures ExactPass(word, s, tag) <==> Steady(word, s, tag)
    decreases Angles(s)
  {
    if First(s, tag).Some? {
      var p := First(s, tag).value;
      PatchingEnds(s, p, tag);
      StepExactly(word, s, tag);
      ExactPassExactly(word, Patched(s, p, tag), tag);
      if Steady(word, s, tag) {
        assert p < |s|;
        SteadyAfterPatch(word, s, p, tag, tag);
      }
      if ExactPass(word, s, tag) {
        SteadyBeforePatch(word, s, p, tag, tag);
      }
    }
  }

  /** A pass whose steps are exact neither brings nor cures a shifted tag of the other kind. */
  lemma {:induction false} PassKeepsSteady(word: Words, s: string, tag: string, other: string)
    requires GoodWords(word) && TagLike(tag) && TagLike(other) && Steady(word, s, tag)
    ensures Steady(word, ReplaceAll(s, tag), other) <==> Steady(word, s, other)
    decreases Angles(s)
  {
    if First(s, tag).None? {
      NothingToReplace(s, tag);
    } else {
      var p := First(s, tag).value;
      var out := Patched(s, p, tag);
      PatchingEnds(s, p, tag);
      PatchingKeepsTheAim(s, p, tag);
      SteadyAfterPatch(word, s, p, tag, tag);
      PassKeepsSteady(word, out, tag, other);
      assert p < |s|;
      if Steady(word, s, other) {
        SteadyAfterPatch(word, s, p, tag, other);
      }
      if Steady(word, out, other) {
        SteadyBeforePatch(word, s, p, tag, other);
      }
    }
  }

  /** Both loops replace just what they find, every time, if and only if no tag in the input is shifted. */
  lemma RunIsExactExactly(word: Words, s: string)
    requires GoodWords(word)
    ensures TagLike(CLOSE) && TagLike(OPEN)
    ensures ExactPass(word, s, CLOSE) && ExactPass(word, ReplaceAll(s, CLOSE), OPEN) <==> AllSteady(word, s)
  {
    Tags();
    ExactPassExactly(word, s, CLOSE);
    ExactPassExactly(word, ReplaceAll(s, CLOSE), OPEN);
    if Steady(word, s, CLOSE) {
      PassKeepsSteady(word, s, CLOSE, OPEN);
    }
  }

  // ---- two inputs for which they do not ----

  /** U+023A is two bytes and its lowercase form three: the slice for the tag behind it is out of range. */
  lemma LongerLowercaseOverruns(word: Words)
    requires GoodWords(word) && word("\U{C8}\U{BA}") == "\U{E2}\U{B1}\U{A5}"
    ensures TakeStep(word, "\U{C8}\U{BA}" + CLOSE, CLOSE) == OutOfRange
  {
    Tags();
    var s := "\U{C8}\U{BA}" + CLOSE;
    LowerOfRun(word, "\U{C8}\U{BA}", CLOSE);
    ShiftedIndex(word, "\U{C8}\U{BA}", CLOSE, CLOSE);
  }

  /** A run of non-ASCII bytes right before a tag shifts it by as much as the run grows. */
  lemma ShiftedIndex(word: Words, run: string, rest: string, tag: string)
    requires GoodWords(word) && TagLike(tag) && Occurs(rest, 0, tag)
    requires run != [] && forall i | 0 <= i < |run| :: !Ascii(run[i])
    ensures Index(Lower(word, run + rest), tag) == Some(|word(run)|)
  {
    var s := run + rest;
    OccurrenceIsAscii(rest, 0, tag);
    forall q: nat | q < |run| ensures !Occurs(s, q, tag) {
      assert s[q] == run[q];
      NoTagBegins(s, q, tag);
    }
    FirstAfter(run, rest, tag);
    assert First(rest, tag) == Some(0);
    IndexOfFirst(word, s, tag);
    assert s[..|run|] == run + [] == run;
    LowerOfRun(word, run, []);
  }

  /**
    Sixteen bytes of growth: the loop for the opening tag finds it, rewrites what is already a
    patch, and never ends.
   */
  lemma LoopStandsStill(word: Words, run: string)
    requires GoodWords(word) && run != [] && (forall i | 0 <= i < |run| :: !Ascii(run[i]))
    requires |word(run)| == |run| + 16
    ensures var s := run + OPEN + PATCH;
      TakeStep(word, s, OPEN) == Cut(s) && Occurs(s, |run|, OPEN)
  {
    Tags();
    OpenOccurs(PATCH);
    SliceBehind(run, OPEN, PATCH);
    ShiftedIndex(word, run, OPEN + PATCH, OPEN);
    OccursBehind(run, OPEN + PATCH, 0, OPEN);
    PatchOnPatch(word, run + OPEN + PATCH, |run| + |OPEN|);
  }

  lemma PatchOnPatch(word: Words, s: string, i: nat)
    requires i + |OPEN| == |s| && Index(Lower(word, s), OPEN) == Some(i) && s == s[..i] + PATCH
    ensures TakeStep(word, s, OPEN) == Cut(s)
  {
    StepAt(word, s, OPEN, i);
    EndsThere(s[..i] + PATCH, s[i + |OPEN|..]);
  }

  lemma StepAt(word: Words, s: string, tag: string, i: nat)
    requires Index(Lower(word, s), tag) == Some(i) && i + |tag| <= |s|
    ensures TakeStep(word, s, tag) == Cut(s[..i] + PATCH + s[i + |tag|..])
  {
  }

  lemma EndsThere(a: string, b: string)
    requires |b| == 0
    ensures a + b == a
  {
  }

  lemma OpenOccurs(post: string)
    ensures Occurs(OPEN + post, 0, OPEN)
  {
    Tags();
    var s := OPEN + post;
    forall i | 0 <= i < 16 ensures LowerByte(s[i]) == OPEN[i - 0] {
      assert s[i] == OPEN[i] && OPEN[i] in OPEN;
    }
  }

  lemma SliceBehind(a: string, b: string, c: string)
    ensures a + (b + c) == a + b + c
    ensures (a + b + c)[..|a| + |b|] == a + b
  {
  }
}
