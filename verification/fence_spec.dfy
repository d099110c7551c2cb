/**
  What replacing the two tags comes to: a single scan over the text, as long as no tag sits at a
  place that lowercasing has moved.
 */
module FenceSpec {
  import opened Options
  import opened FenceSearch

  datatype Step = Finished | Cut(text: string) | OutOfRange

  /** One turn of the loop: the index found in the lowercased text is used to slice the text itself. */
  function TakeStep(word: Words, s: string, tag: string): Step {
    match Index(Lower(word, s), tag)
    case None => Finished
    case Some(i) => if i + |tag| <= |s| then Cut(s[..i] + PATCH + s[i + |tag|..]) else OutOfRange
  }

  /** The text with the tag at p replaced. */
  function Patched(s: string, p: nat, tag: string): string
    requires p + |tag| <= |s|
  {
    s[..p] + PATCH + s[p + |tag|..]
  }

  /** Every occurrence in any casing replaced, left to right. */
  function ReplaceAll(s: string, tag: string): string
    requires tag != []
    decreases |s|
  {
    if s == [] then []
    else if Occurs(s, 0, tag) then PATCH + ReplaceAll(s[|tag|..], tag)
    else [s[0]] + ReplaceAll(s[1..], tag)
  }

  /** Both tags replaced in one scan. */
  function Clean(s: string): string
    decreases |s|
  {
    if s == [] then []
    else if Occurs(s, 0, CLOSE) then PATCH + Clean(s[|CLOSE|..])
    else if Occurs(s, 0, OPEN) then PATCH + Clean(s[|OPEN|..])
    else [s[0]] + Clean(s[1..])
  }

  predicate Free(s: string, tag: string) { forall q: nat | q < |s| :: !Occurs(s, q, tag) }

  function Angles(s: string): nat {
    if s == [] then 0 else (if s[0] == '<' then 1 else 0) + Angles(s[1..])
  }

  lemma {:induction false} AnglesOfConcat(a: string, b: string)
    ensures Angles(a + b) == Angles(a) + Angles(b)
  {
    if a == [] {
      assert a + b == b;
    } else {
      assert (a + b)[1..] == a[1..] + b;
      AnglesOfConcat(a[1..], b);
    }
  }

  lemma {:induction false} NoAngles(s: string)
    requires forall c | c in s :: c != '<'
    ensures Angles(s) == 0
  {
    if s == [] {
    } else {
      assert s[0] in s;
      assert forall c | c in s[1..] :: c in s;
      NoAngles(s[1..]);
    }
  }

  lemma AnglesOfThree(a: string, b: string, c: string)
    ensures Angles((a + b) + c) == Angles(a) + Angles(b) + Angles(c)
  {
    AnglesOfConcat(a + b, c);
    AnglesOfConcat(a, b);
  }

  /** Each replacement takes one '<' away, however the length goes. */
  lemma PatchingEnds(s: string, p: nat, tag: string)
    requires TagLike(tag) && Occurs(s, p, tag)
    ensures Angles(Patched(s, p, tag)) < Angles(s)
  {
    Tags();
    OccurrenceIsAscii(s, p, tag);
    var pre, mid, post := s[..p], s[p..p + |tag|], s[p + |tag|..];
    assert s == (pre + mid) + post;
    AnglesOfThree(pre, mid, post);
    AnglesOfThree(pre, PATCH, post);
    NoAngles(PATCH);
    assert mid[0] == '<';
  }

  // ---- where occurrences are after a replacement ----

  lemma OccursInSlice(s: string, q: nat, tag: string)
    requires q + |tag| <= |s|
    ensures Occurs(s, q, tag) <==> Occurs(s[q..q + |tag|], 0, tag)
  {
    var t := s[q..q + |tag|];
    if Occurs(s, q, tag) {
      forall i | 0 <= i < |tag| ensures LowerByte(t[i]) == tag[i - 0] {
        assert t[i] == s[q + i] && tag[(q + i) - q] == tag[i];
      }
    }
    if Occurs(t, 0, tag) {
      forall i | q <= i < q + |tag| ensures LowerByte(s[i]) == tag[i - q] {
        assert t[i - q] == s[i] && tag[(i - q) - 0] == tag[i - q];
      }
    }
  }

  lemma SameSlice(s: string, q: nat, t: string, r: nat, tag: string)
    requires q + |tag| <= |s| && r + |tag| <= |t| && s[q..q + |tag|] == t[r..r + |tag|]
    ensures Occurs(s, q, tag) <==> Occurs(t, r, tag)
  {
    OccursInSlice(s, q, tag);
    OccursInSlice(t, r, tag);
  }

  /** No tag reaches over a byte that can only start a tag, or be in none. */
  lemma NoCrossing(s: string, q: nat, tag: string, wall: nat)
    requires TagLike(tag) && q < wall < |s| && (s[wall] == '<' || s[wall] == '[')
    ensures Occurs(s, q, tag) ==> q + |tag| <= wall
  {
    if Occurs(s, q, tag) {
      OccurrenceIsAscii(s, q, tag);
    }
  }

  lemma BeforeThePatch(s: string, p: nat, tag: string, q: nat, other: string)
    requires TagLike(tag) && TagLike(other) && Occurs(s, p, tag) && q < p
    ensures Occurs(Patched(s, p, tag), q, other) <==> Occurs(s, q, other)
  {
    Tags();
    var out := Patched(s, p, tag);
    OccurrenceIsAscii(s, p, tag);
    assert out[p] == '[';
    NoCrossing(s, q, other, p);
    NoCrossing(out, q, other, p);
    if q + |other| <= p {
      assert s[q..q + |other|] == out[q..q + |other|];
      SameSlice(s, q, out, q, other);
    }
  }

  lemma InThePatch(s: string, p: nat, tag: string, q: nat, other: string)
    requires TagLike(other) && p + |tag| <= |s| && p <= q < p + |PATCH|
    ensures !Occurs(Patched(s, p, tag), q, other)
  {
    Tags();
    var out := Patched(s, p, tag);
    assert out[q] == PATCH[q - p] && PATCH[q - p] in PATCH;
    NoTagBegins(out, q, other);
  }

  lemma BehindThePatch(s: string, p: nat, tag: string, q: nat, other: string)
    requires p + |tag| <= q <= |s|
    ensures Occurs(Patched(s, p, tag), q - |tag| + |PATCH|, other) <==> Occurs(s, q, other)
  {
    var out, r := Patched(s, p, tag), q - |tag| + |PATCH|;
    assert |out| - r == |s| - q;
    if q + |other| <= |s| {
      assert s[q..q + |other|] == out[r..r + |other|];
      SameSlice(s, q, out, r, other);
    }
  }

  /** Within a tag no tag begins. */
  lemma InTheTag(s: string, p: nat, tag: string, q: nat, other: string)
    requires TagLike(tag) && TagLike(other) && Occurs(s, p, tag) && p < q < p + |tag|
    ensures !Occurs(s, q, other)
  {
    OccurrenceIsAscii(s, p, tag);
    NoTagBegins(s, q, other);
  }

  // ---- the loop replaces all occurrences ----

  lemma {:induction false} NothingToReplace(s: string, tag: string)
    requires tag != [] && Free(s, tag)
    ensures ReplaceAll(s, tag) == s
  {
    if s == [] {
    } else {
      forall q: nat | q < |s| - 1 ensures !Occurs(s[1..], q, tag) {
        OccursBehind([s[0]], s[1..], q, tag);
        assert [s[0]] + s[1..] == s;
      }
      NothingToReplace(s[1..], tag);
    }
  }

  lemma OccursBehind(a: string, t: string, q: nat, tag: string)
    requires q <= |t|
    ensures Occurs(a + t, |a| + q, tag) <==> Occurs(t, q, tag)
  {
    if q + |tag| <= |t| {
      assert (a + t)[|a| + q..|a| + q + |tag|] == t[q..q + |tag|];
      SameSlice(a + t, |a| + q, t, q, tag);
    }
  }

  /** A start where no tag begins is copied. */
  lemma {:induction false} ReplaceAllCopies(a: string, t: string, tag: string)
    requires tag != [] && forall q: nat | q < |a| :: !Occurs(a + t, q, tag)
    ensures ReplaceAll(a + t, tag) == a + ReplaceAll(t, tag)
    decreases |a|
  {
    if a == [] {
      assert a + t == t;
    } else {
      var all := a + t;
      assert all[1..] == a[1..] + t && all == [a[0]] + (a[1..] + t);
      forall q: nat | q < |a| - 1 ensures !Occurs(a[1..] + t, q, tag) {
        OccursBehind([a[0]], a[1..] + t, q, tag);
      }
      ReplaceAllCopies(a[1..], t, tag);
      assert !Occurs(all, 0, tag);
    }
  }

  lemma ReplaceAllFirst(s: string, p: nat, tag: string)
    requires TagLike(tag) && Occurs(s, p, tag) && forall q: nat | q < p :: !Occurs(s, q, tag)
    ensures ReplaceAll(s, tag) == s[..p] + (PATCH + ReplaceAll(s[p + |tag|..], tag))
  {
    var pre, rest := s[..p], s[p..];
    assert s == pre + rest;
    ReplaceAllCopies(pre, rest, tag);
    OccursBehind(pre, rest, 0, tag);
    assert rest[|tag|..] == s[p + |tag|..];
  }

  lemma PatchIsCopied(t: string, tag: string)
    requires TagLike(tag)
    ensures ReplaceAll(PATCH + t, tag) == PATCH + ReplaceAll(t, tag)
  {
    Tags();
    forall q: nat | q < |PATCH| ensures !Occurs(PATCH + t, q, tag) {
      assert (PATCH + t)[q] == PATCH[q] && PATCH[q] in PATCH;
      NoTagBegins(PATCH + t, q, tag);
    }
    ReplaceAllCopies(PATCH, t, tag);
  }

  /** Replacing the first occurrence leaves the rest of the work the same. */
  lemma PatchingKeepsTheAim(s: string, p: nat, tag: string)
    requires TagLike(tag) && Occurs(s, p, tag) && forall q: nat | q < p :: !Occurs(s, q, tag)
    ensures ReplaceAll(Patched(s, p, tag), tag) == ReplaceAll(s, tag)
  {
    var out, pre, rest := Patched(s, p, tag), s[..p], PATCH + s[p + |tag|..];
    assert out == pre + rest;
    forall q: nat | q < |pre| ensures !Occurs(pre + rest, q, tag) {
      BeforeThePatch(s, p, tag, q, tag);
    }
    ReplaceAllCopies(pre, rest, tag);
    PatchIsCopied(s[p + |tag|..], tag);
    ReplaceAllFirst(s, p, tag);
  }

  // ---- the two passes are one scan ----

  lemma TagsExclude(s: string)
    ensures !(Occurs(s, 0, OPEN) && Occurs(s, 0, CLOSE))
  {
    if |s| > 1 {
      assert Occurs(s, 0, OPEN) ==> LowerByte(s[1]) == OPEN[1 - 0];
      assert Occurs(s, 0, CLOSE) ==> LowerByte(s[1]) == CLOSE[1 - 0];
    }
  }

  /** What the scan leaves unpatched at the start was there before. */
  lemma {:induction false} UnpatchedStart(s: string, tag: string, n: nat)
    requires tag != []
    requires n <= |ReplaceAll(s, tag)| && '[' !in ReplaceAll(s, tag)[..n]
    ensures n <= |s| && s[..n] == ReplaceAll(s, tag)[..n]
    decreases |s|
  {
    var out := ReplaceAll(s, tag);
    if n == 0 {
    } else {
      assert out[0] in out[..n];
      Tags();
      var rest := ReplaceAll(s[1..], tag);
      assert out == [s[0]] + rest;
      assert rest[..n - 1] == out[..n][1..];
      assert forall c | c in rest[..n - 1] :: c in out[..n];
      UnpatchedStart(s[1..], tag, n - 1);
      assert s[..n] == [s[0]] + s[1..][..n - 1];
    }
  }

  lemma NoBracketInTag(s: string, tag: string)
    requires TagLike(tag) && Occurs(s, 0, tag)
    ensures '[' !in s[..|tag|]
  {
    OccurrenceIsAscii(s, 0, tag);
  }

  /** A pass for one tag brings no tag to the start of a text. */
  lemma PassBringsNothing(s: string, tag: string, other: string)
    requires TagLike(tag) && TagLike(other) && !Occurs(s, 0, other)
    ensures !Occurs(ReplaceAll(s, tag), 0, other)
  {
    var out := ReplaceAll(s, tag);
    if Occurs(out, 0, other) {
      NoBracketInTag(out, other);
      UnpatchedStart(s, tag, |other|);
      SameSlice(out, 0, s, 0, other);
    }
  }

  /** The pass for the closing tag copies an opening tag. */
  lemma OpenIsCopied(s: string)
    requires Occurs(s, 0, OPEN)
    ensures ReplaceAll(s, CLOSE) == s[..16] + ReplaceAll(s[16..], CLOSE)
  {
    Tags();
    TagsExclude(s);
    forall q: nat | q < 16 ensures !Occurs(s[..16] + s[16..], q, CLOSE) {
      assert s[..16] + s[16..] == s;
      if q > 0 {
        InTheTag(s, 0, OPEN, q, CLOSE);
      }
    }
    ReplaceAllCopies(s[..16], s[16..], CLOSE);
    assert s[..16] + s[16..] == s;
  }

  /** First all closing tags, then all opening tags: the same text as one scan for both. */
  lemma {:induction false} TwoPassesAreOneScan(s: string)
    ensures ReplaceAll(ReplaceAll(s, CLOSE), OPEN) == Clean(s)
    decreases |s|
  {
    Tags();
    if s == [] {
    } else if Occurs(s, 0, CLOSE) {
      TwoPassesAreOneScan(s[17..]);
      PatchIsCopied(ReplaceAll(s[17..], CLOSE), OPEN);
    } else if Occurs(s, 0, OPEN) {
      TwoPassesAreOneScan(s[16..]);
      OpenIsCopied(s);
      var rest := ReplaceAll(s[16..], CLOSE);
      var mid := s[..16] + rest;
      SameSlice(s, 0, mid, 0, OPEN);
      assert mid[16..] == rest;
    } else {
      TwoPassesAreOneScan(s[1..]);
      PassBringsNothing(s, CLOSE, OPEN);
      var mid := ReplaceAll(s, CLOSE);
      assert mid[1..] == ReplaceAll(s[1..], CLOSE);
    }
  }

  /** A pass leaves none of its own tag, and none of another that was not there. */
  lemma {:induction false} PassLeavesNone(s: string, tag: string, other: string)
    requires TagLike(tag) && TagLike(other) && (tag == other || Free(s, other))
    ensures Free(ReplaceAll(s, tag), other)
    decreases |s|
  {
    Tags();
    if s == [] {
    } else {
      var n := if Occurs(s, 0, tag) then |tag| else 1;
      assert s == s[..n] + s[n..];
      if tag != other {
        forall q: nat | q < |s| - n ensures !Occurs(s[n..], q, other) {
          OccursBehind(s[..n], s[n..], q, other);
        }
      }
      PassLeavesNone(s[n..], tag, other);
      var rest := ReplaceAll(s[n..], tag);
      if Occurs(s, 0, tag) {
        PatchThenFree(rest, other);
      } else {
        PassBringsNothing(s, tag, other);
        ByteThenFree(s[0], rest, other);
      }
    }
  }

  lemma PatchThenFree(rest: string, tag: string)
    requires TagLike(tag) && Free(rest, tag)
    ensures Free(PATCH + rest, tag)
  {
    Tags();
    forall q: nat | q < |PATCH + rest| ensures !Occurs(PATCH + rest, q, tag) {
      if q < 16 {
        assert (PATCH + rest)[q] == PATCH[q] && PATCH[q] in PATCH;
        NoTagBegins(PATCH + rest, q, tag);
      } else {
        OccursBehind(PATCH, rest, q - 16, tag);
      }
    }
  }

  lemma ByteThenFree(c: char, rest: string, tag: string)
    requires Free(rest, tag) && !Occurs([c] + rest, 0, tag)
    ensures Free([c] + rest, tag)
  {
    forall q: nat | q < |[c] + rest| ensures !Occurs([c] + rest, q, tag) {
      if q > 0 {
        OccursBehind([c], rest, q - 1, tag);
      }
    }
  }

  /** The scan leaves neither tag in any casing. */
  lemma CleanIsFree(s: string)
    ensures Free(Clean(s), CLOSE) && Free(Clean(s), OPEN)
  {
    Tags();
    TwoPassesAreOneScan(s);
    var mid := ReplaceAll(s, CLOSE);
    PassLeavesNone(s, CLOSE, CLOSE);
    PassLeavesNone(mid, OPEN, CLOSE);
    PassLeavesNone(mid, OPEN, OPEN);
  }

  /** A text is left as it is exactly when neither tag is in it. */
  lemma CleanKeepsExactly(s: string)
    ensures Clean(s) == s <==> Free(s, CLOSE) && Free(s, OPEN)
  {
    Tags();
    if Free(s, CLOSE) && Free(s, OPEN) {
      NothingToReplace(s, CLOSE);
      NothingToReplace(s, OPEN);
      TwoPassesAreOneScan(s);
    } else if Clean(s) == s {
      CleanIsFree(s);
    }
  }
}
