/** The loops that neutralise the fence, on every text on which they do not go on for ever. */
module Fence {
  import opened Options
  import opened FenceSearch
  import opened FenceSpec
  import opened FenceDrift
  import opened FenceFate

  method IndexFold(word: Words, s: string, sub: string) returns (at: Option<nat>)
    requires GoodWords(word) && TagLike(sub)
    ensures at == Index(Lower(word, s), sub) == FoundAt(word, s, sub)
  {
    IndexOfFirst(word, s, sub);
    at := Index(Lower(word, s), sub);
  }

  /** A slice out of range stops the program: no result. */
  method Splice(word: Words, s: string, tag: string, idx: nat) returns (out: Option<string>)
    requires GoodWords(word) && TagLike(tag) && |tag| >= |PATCH| && !FateOf(word, s, tag).StandsStill?
    requires Index(Lower(word, s), tag) == Some(idx)
    ensures out.Some? <==> idx + |tag| <= |s|
    ensures out.None? ==> FateOf(word, s, tag) == Overruns
    ensures out.Some? ==>
              && out.value == Patched(s, idx, tag)
              && FateOf(word, out.value, tag) == FateOf(word, s, tag) && Settling(word, out.value, s, tag)
  {
    OneTurn(word, s, tag, idx);
    if idx + |tag| > |s| {
      return None;
    }
    out := Some(s[..idx] + PATCH + s[idx + |tag|..]);
  }

  /**
    The inner loop, wherever it does not go on for ever. Neither the length nor the number of tags
    need fall from turn to turn; what does is the length, or what can still shift, or the chance
    that the next turn changes the text.
   */
  method ReplaceTag(word: Words, s: string, tag: string) returns (r: Option<string>)
    requires GoodWords(word) && TagLike(tag) && |tag| >= |PATCH| && !FateOf(word, s, tag).StandsStill?
    ensures FateOf(word, s, tag) == if r.Some? then Ends(r.value) else Overruns
    ensures r.Some? ==> Free(r.value, tag)
    ensures r.Some? ==> forall other | TagLike(other) && Free(s, other) :: Free(r.value, other)
    ensures Steady(word, s, tag) ==> r == Some(ReplaceAll(s, tag))
  {
    var out := s;
    var idx := IndexFold(word, out, tag);
    if Steady(word, s, tag) {
      SteadyEnds(word, s, tag);
    }
    while idx.Some?
      invariant FateOf(word, out, tag) == FateOf(word, s, tag)
      invariant idx == Index(Lower(word, out), tag)
      decreases |out|, Shifting(out, tag), Unsettled(word, out, tag)
    {
      var next := Splice(word, out, tag, idx.value);
      if next.None? {
        return None;
      }
      out := next.value;
      idx := IndexFold(word, out, tag);
    }
    EndLeavesNone(word, s, tag);
    r := Some(out);
  }

  /** Neither tag is left in any casing; and where lowercasing shifts no tag, nothing but tags is touched. */
  method NeutralizeMemoryFence(word: Words, s: string) returns (r: Option<string>)
    requires GoodWords(word) && !FenceFateOf(word, s).StandsStill?
    ensures FenceFateOf(word, s) == if r.Some? then Ends(r.value) else Overruns
    ensures r.Some? ==> Free(r.value, CLOSE) && Free(r.value, OPEN)
    ensures AllSteady(word, s) ==> r == Some(Clean(s))
  {
    Tags();
    if AllSteady(word, s) {
      SteadyReturns(word, s);
    }
    var out := s;
    var tags := [CLOSE, OPEN];
    ghost var fate := FenceFateOf(word, s);
    for i := 0 to |tags|
      invariant i == 0 ==> out == s
      invariant i == 1 ==> FateOf(word, s, CLOSE) == Ends(out)
      invariant i == 2 ==> fate == Ends(out)
    {
      var next := ReplaceTag(word, out, tags[i]);
      if next.None? {
        return None;
      }
      out := next.value;
    }
    ReturnedIsFree(word, s, out);
    r := Some(out);
  }
}
