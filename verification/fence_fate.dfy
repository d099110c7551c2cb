/**
  What becomes of the loops on any byte string, shifted tags or not. Each loop ends, runs out of
  range, or comes to a text that its step does not change; and when both end, no tag is left.
 */
module FenceFate {
  import opened Options
  import opened FenceSearch
  import opened FenceSpec
  import opened FenceDrift

  // ---- a cut anywhere brings in no tag ----

  /** A tag in the text after a cut lies before the patch or behind it, and was in the text before. */
  lemma CutFindsOld(s: string, i: nat, tag: string, q: nat, other: string)
    requires TagLike(other) && i + |tag| <= |s|
    ensures var out := Patched(s, i, tag);
      Occurs(out, q, other) ==>
        || (q < i && Occurs(s, q, other))
        || (i + |PATCH| <= q && Occurs(s, q - |PATCH| + |tag|, other))
  {
    Tags();
    var out := Patched(s, i, tag);
    if q < i {
      assert out[i] == '[';
      NoCrossing(out, q, other, i);
      if q + |other| <= i {
        assert s[q..q + |other|] == out[q..q + |other|];
        SameSlice(s, q, out, q, other);
      }
    } else if q < i + |PATCH| {
      InThePatch(s, i, tag, q, other);
    } else if q <= |out| {
      BehindThePatch(s, i, tag, q - |PATCH| + |tag|, other);
    }
  }

  lemma CutKeepsFree(s: string, i: nat, tag: string, other: string)
    requires TagLike(other) && tag != [] && i + |tag| <= |s| && Free(s, other)
    ensures Free(Patched(s, i, tag), other)
  {
    var out := Patched(s, i, tag);
    forall q: nat | q < |out| ensures !Occurs(out, q, other) {
      CutFindsOld(s, i, tag, q, other);
    }
  }

  // ---- the loop as it turns ----

  /** Where the loop for one tag stands after n turns. */
  function Turned(word: Words, s: string, tag: string, n: nat): Step {
    if n == 0 then Cut(s)
    else
      var before := Turned(word, s, tag, n - 1);
      if before.Cut? then TakeStep(word, before.text, tag) else before
  }

  /** The loop ends and leaves this text: n turns cut, the next finds nothing. */
  predicate EndsAfter(word: Words, s: string, tag: string, n: nat, out: string) {
    Turned(word, s, tag, n) == Cut(out) && Turned(word, s, tag, n + 1) == Finished
  }

  lemma {:induction false} TurningKeepsFree(word: Words, s: string, tag: string, n: nat, other: string)
    requires TagLike(other) && tag != [] && Free(s, other) && Turned(word, s, tag, n).Cut?
    ensures Free(Turned(word, s, tag, n).text, other)
  {
    if n == 0 {
    } else {
      TurningKeepsFree(word, s, tag, n - 1, other);
      var before := Turned(word, s, tag, n - 1).text;
      CutKeepsFree(before, Index(Lower(word, before), tag).value, tag, other);
    }
  }

  /** However it cut: a loop that ends has left none of its tag, and none of another that was not there. */
  lemma EndedPassLeavesNone(word: Words, s: string, tag: string, n: nat, out: string, other: string)
    requires GoodWords(word) && TagLike(tag) && TagLike(other) && EndsAfter(word, s, tag, n, out)
    ensures Free(out, tag)
    ensures Free(s, other) ==> Free(out, other)
  {
    StopsExactly(word, out, tag);
    if Free(s, other) {
      TurningKeepsFree(word, s, tag, n, other);
    }
  }

  // ---- whether it ends ----

  function Tagged(s: string, tag: string): set<nat> { set q: nat | q < |s| && Occurs(s, q, tag) }

  function Foreign(s: string): set<nat> { set q: nat | q < |s| && !Ascii(s[q]) }

  /** What a cut of equal length takes away: tags, and bytes whose lowercase form may have another length. */
  function Shifting(s: string, tag: string): nat { |Tagged(s, tag)| + |Foreign(s)| }

  lemma CutShrinks(s: string, i: nat, tag: string)
    requires TagLike(tag) && |tag| == |PATCH| && i + |tag| <= |s|
    ensures var out := Patched(s, i, tag);
      Tagged(out, tag) <= Tagged(s, tag) && Foreign(out) <= Foreign(s) && |out| == |s|
  {
    Tags();
    var out := Patched(s, i, tag);
    forall q | q in Tagged(out, tag) ensures q in Tagged(s, tag) {
      CutFindsOld(s, i, tag, q, tag);
    }
    PatchedIsAscii(s, i, tag);
  }

  lemma PatchedIsAscii(s: string, i: nat, tag: string)
    requires i + |tag| <= |s|
    ensures forall q | i <= q < i + |PATCH| :: Ascii(Patched(s, i, tag)[q])
  {
    Tags();
    forall q | i <= q < i + |PATCH| ensures Ascii(Patched(s, i, tag)[q]) {
      assert Patched(s, i, tag)[q] == PATCH[q - i] && PATCH[q - i] in PATCH;
    }
  }

  /** Bytes alike but for ASCII against ASCII keep the lowered length. */
  lemma {:induction false} LoweredAlike(word: Words, a: string, b: string)
    requires |a| == |b|
    requires forall k | 0 <= k < |a| :: a[k] == b[k] || (Ascii(a[k]) && Ascii(b[k]))
    ensures |Lower(word, a)| == |Lower(word, b)|
    decreases |a|
  {
    if a == [] {
    } else if Ascii(a[0]) {
      LoweredAlike(word, a[1..], b[1..]);
    } else {
      RunAlike(a, b);
      var n := Run(a);
      assert a[..n] == b[..n];
      LoweredAlike(word, a[n..], b[n..]);
    }
  }

  lemma {:induction false} RunAlike(a: string, b: string)
    requires |a| == |b|
    requires forall k | 0 <= k < |a| :: a[k] == b[k] || (Ascii(a[k]) && Ascii(b[k]))
    ensures Run(a) == Run(b)
  {
    if a == [] || Ascii(a[0]) {
    } else {
      RunAlike(a[1..], b[1..]);
    }
  }

  /** A cut that takes nothing away is repeated at the same place, and changes nothing then. */
  lemma NothingTakenAway(word: Words, s: string, tag: string)
    requires GoodWords(word) && TagLike(tag) && |tag| == |PATCH| && TakeStep(word, s, tag).Cut?
    requires var out := TakeStep(word, s, tag).text;
      Tagged(out, tag) == Tagged(s, tag) && Foreign(out) == Foreign(s)
    ensures var out := TakeStep(word, s, tag).text; TakeStep(word, out, tag) == Cut(out)
  {
    var i := Index(Lower(word, s), tag).value;
    var out := Patched(s, i, tag);
    IndexOfFirst(word, s, tag);
    IndexOfFirst(word, out, tag);
    SameFirst(s, out, tag);
    var p := First(s, tag).value;
    SamePrefix(word, s, i, tag, p);
    PatchAgain(s, i, tag);
  }

  lemma SameFirst(s: string, t: string, tag: string)
    requires |s| == |t| && tag != [] && Tagged(s, tag) == Tagged(t, tag)
    ensures First(s, tag) == First(t, tag)
  {
    assert forall q: nat | q < |s| :: Occurs(s, q, tag) <==> q in Tagged(s, tag);
    assert forall q: nat | q < |t| :: Occurs(t, q, tag) <==> q in Tagged(t, tag);
  }

  lemma SamePrefix(word: Words, s: string, i: nat, tag: string, p: nat)
    requires |tag| == |PATCH| && i + |tag| <= |s| && p <= |s| && Foreign(Patched(s, i, tag)) == Foreign(s)
    ensures Lowered(word, Patched(s, i, tag), p) == Lowered(word, s, p)
  {
    Tags();
    var out := Patched(s, i, tag);
    PatchedIsAscii(s, i, tag);
    forall k | 0 <= k < p ensures s[..p][k] == out[..p][k] || (Ascii(s[..p][k]) && Ascii(out[..p][k])) {
      assert k in Foreign(s) <==> !Ascii(s[k]);
      assert k in Foreign(out) <==> !Ascii(out[k]);
    }
    LoweredAlike(word, s[..p], out[..p]);
  }

  lemma PatchAgain(s: string, i: nat, tag: string)
    requires |tag| == |PATCH| && i + |tag| <= |s|
    ensures i + |tag| <= |Patched(s, i, tag)| && Patched(Patched(s, i, tag), i, tag) == Patched(s, i, tag)
  {
  }

  datatype Fate = Ends(out: string) | Overruns | StandsStill(at: string)

  function Unsettled(word: Words, s: string, tag: string): nat {
    if TakeStep(word, s, tag) == Cut(s) then 0 else 1
  }

  lemma CutLength(word: Words, s: string, tag: string)
    requires TakeStep(word, s, tag).Cut? && tag != []
    ensures |TakeStep(word, s, tag).text| == |s| - |tag| + |PATCH|
  {
  }

  /** t is nearer to the fate of s than s is. */
  predicate Settling(word: Words, t: string, s: string, tag: string) {
    || |t| < |s|
    || (|t| == |s| && Shifting(t, tag) < Shifting(s, tag))
    || (|t| == |s| && Shifting(t, tag) == Shifting(s, tag) && Unsettled(word, t, tag) < Unsettled(word, s, tag))
  }

  /** Why following the loop comes to an end, whether the loop does or not. */
  lemma Settles(word: Words, s: string, tag: string)
    requires GoodWords(word) && TagLike(tag) && |tag| >= |PATCH| && TakeStep(word, s, tag).Cut?
    requires TakeStep(word, s, tag) != Cut(s)
    ensures Settling(word, TakeStep(word, s, tag).text, s, tag)
  {
    var t := TakeStep(word, s, tag).text;
    CutLength(word, s, tag);
    if |tag| == |PATCH| {
      var i := Index(Lower(word, s), tag).value;
      assert t == Patched(s, i, tag);
      CutShrinks(s, i, tag);
      Fewer(Tagged(t, tag), Tagged(s, tag));
      Fewer(Foreign(t), Foreign(s));
      if Shifting(t, tag) == Shifting(s, tag) {
        NothingTakenAway(word, s, tag);
      }
    }
  }

  lemma Fewer(a: set<nat>, b: set<nat>)
    requires a <= b
    ensures |a| <= |b| && (|a| == |b| ==> a == b)
  {
    assert b == a + (b - a);
    assert |b| == |a| + |b - a|;
    assert |b - a| == 0 ==> b - a == {};
  }

  /** What becomes of the loop for one tag. */
  ghost function FateOf(word: Words, s: string, tag: string): Fate
    requires GoodWords(word) && TagLike(tag) && |tag| >= |PATCH|
    decreases |s|, Shifting(s, tag), Unsettled(word, s, tag)
  {
    match TakeStep(word, s, tag)
    case Finished => Ends(s)
    case OutOfRange => Overruns
    case Cut(t) => if t == s then StandsStill(s) else Settles(word, s, tag); FateOf(word, t, tag)
  }

  /** One turn of a loop that does not go on for ever: it runs out of range, or comes nearer to its end. */
  lemma OneTurn(word: Words, s: string, tag: string, i: nat)
    requires GoodWords(word) && TagLike(tag) && |tag| >= |PATCH| && !FateOf(word, s, tag).StandsStill?
    requires Index(Lower(word, s), tag) == Some(i)
    ensures i + |tag| > |s| ==> FateOf(word, s, tag) == Overruns
    ensures i + |tag| <= |s| ==> var t := s[..i] + PATCH + s[i + |tag|..];
      FateOf(word, t, tag) == FateOf(word, s, tag) && Settling(word, t, s, tag)
  {
    var step := TakeStep(word, s, tag);
    if step.Cut? {
      assert step.text != s;
      Settles(word, s, tag);
      assert FateOf(word, step.text, tag) == FateOf(word, s, tag);
    }
  }

  // ---- the fate is what the loop does ----

  lemma {:induction false} TurnedOn(word: Words, s: string, tag: string, t: string, n: nat)
    requires TakeStep(word, s, tag) == Cut(t)
    ensures Turned(word, s, tag, n + 1) == Turned(word, t, tag, n)
  {
    if n == 0 {
    } else {
      TurnedOn(word, s, tag, t, n - 1);
    }
  }

  /** The number of turns after which the fate shows. */
  ghost function Turns(word: Words, s: string, tag: string): nat
    requires GoodWords(word) && TagLike(tag) && |tag| >= |PATCH|
    decreases |s|, Shifting(s, tag), Unsettled(word, s, tag)
  {
    match TakeStep(word, s, tag)
    case Finished => 0
    case OutOfRange => 0
    case Cut(t) => if t == s then 0 else Settles(word, s, tag); 1 + Turns(word, t, tag)
  }

  lemma {:induction false} FateShows(word: Words, s: string, tag: string)
    requires GoodWords(word) && TagLike(tag) && |tag| >= |PATCH|
    ensures var n := Turns(word, s, tag);
      match FateOf(word, s, tag)
      case Ends(out) => EndsAfter(word, s, tag, n, out)
      case Overruns => Turned(word, s, tag, n + 1) == OutOfRange
      case StandsStill(at) => Turned(word, s, tag, n) == Cut(at) && TakeStep(word, at, tag) == Cut(at)
    decreases |s|, Shifting(s, tag), Unsettled(word, s, tag)
  {
    match TakeStep(word, s, tag)
    case Finished => assert Turned(word, s, tag, 0) == Cut(s);
    case OutOfRange => assert Turned(word, s, tag, 0) == Cut(s);
    case Cut(t) =>
      if t == s {
      } else {
        Settles(word, s, tag);
        FateShows(word, t, tag);
        var n := Turns(word, t, tag);
        assert Turns(word, s, tag) == n + 1 && FateOf(word, s, tag) == FateOf(word, t, tag);
        TurnedOn(word, s, tag, t, n);
        TurnedOn(word, s, tag, t, n + 1);
      }
  }

  lemma {:induction false} StillStands(word: Words, s: string, tag: string, m: nat, n: nat)
    requires m <= n && Turned(word, s, tag, m).Cut?
    requires TakeStep(word, Turned(word, s, tag, m).text, tag) == Turned(word, s, tag, m)
    ensures Turned(word, s, tag, n) == Turned(word, s, tag, m)
  {
    if m == n {
    } else {
      StillStands(word, s, tag, m, n - 1);
    }
  }

  /** Once over, a loop stays over; before that, every turn cut. */
  lemma {:induction false} OverIsOver(word: Words, s: string, tag: string, m: nat, n: nat)
    requires m <= n && !Turned(word, s, tag, m).Cut?
    ensures Turned(word, s, tag, n) == Turned(word, s, tag, m)
  {
    if m == n {
    } else {
      OverIsOver(word, s, tag, m, n - 1);
    }
  }

  lemma StandingGoesOn(word: Words, s: string, tag: string, m: nat, n: nat)
    requires Turned(word, s, tag, m).Cut?
    requires TakeStep(word, Turned(word, s, tag, m).text, tag) == Turned(word, s, tag, m)
    ensures Turned(word, s, tag, n).Cut?
  {
    if m <= n {
      StillStands(word, s, tag, m, n);
    } else if !Turned(word, s, tag, n).Cut? {
      OverIsOver(word, s, tag, n, m);
    }
  }

  predicate GoesOn(word: Words, s: string, tag: string, n: nat) { Turned(word, s, tag, n).Cut? }

  /** The loop goes on for ever if and only if it comes to a text that its step does not change. */
  lemma ForeverExactly(word: Words, s: string, tag: string)
    requires GoodWords(word) && TagLike(tag) && |tag| >= |PATCH|
    ensures (forall n: nat :: GoesOn(word, s, tag, n)) <==> FateOf(word, s, tag).StandsStill?
  {
    FateShows(word, s, tag);
    var m := Turns(word, s, tag);
    if FateOf(word, s, tag).StandsStill? {
      forall n: nat ensures GoesOn(word, s, tag, n) {
        StandingGoesOn(word, s, tag, m, n);
      }
    } else {
      assert !GoesOn(word, s, tag, m + 1);
    }
  }

  lemma AfterTheEnd(word: Words, s: string, tag: string, m: nat, out: string, n: nat)
    requires EndsAfter(word, s, tag, m, out) && m < n
    ensures Turned(word, s, tag, n) == Finished
  {
    OverIsOver(word, s, tag, m + 1, n);
  }

  lemma EndsOnce(word: Words, s: string, tag: string, m: nat, a: string, n: nat, b: string)
    requires EndsAfter(word, s, tag, m, a) && EndsAfter(word, s, tag, n, b)
    ensures a == b
  {
    if m < n {
      AfterTheEnd(word, s, tag, m, a, n);
    } else if n < m {
      AfterTheEnd(word, s, tag, n, b, m);
    }
  }

  lemma OverrunNeverEnds(word: Words, s: string, tag: string, m: nat, n: nat, out: string)
    requires Turned(word, s, tag, m) == OutOfRange
    ensures !EndsAfter(word, s, tag, n, out)
  {
    if m <= n {
      OverIsOver(word, s, tag, m, n);
    } else if EndsAfter(word, s, tag, n, out) {
      OverIsOver(word, s, tag, n + 1, m);
    }
  }

  /** The loop ends if and only if that is its fate, and with the text the fate names. */
  lemma EndsExactly(word: Words, s: string, tag: string, out: string)
    requires GoodWords(word) && TagLike(tag) && |tag| >= |PATCH|
    ensures (exists n: nat :: EndsAfter(word, s, tag, n, out)) <==> FateOf(word, s, tag) == Ends(out)
  {
    FateShows(word, s, tag);
    var m := Turns(word, s, tag);
    match FateOf(word, s, tag)
    case Ends(text) =>
      forall n: nat | EndsAfter(word, s, tag, n, out) ensures text == out {
        EndsOnce(word, s, tag, m, text, n, out);
      }
    case Overruns =>
      forall n: nat ensures !EndsAfter(word, s, tag, n, out) {
        OverrunNeverEnds(word, s, tag, m + 1, n, out);
      }
    case StandsStill(at) =>
      forall n: nat ensures !EndsAfter(word, s, tag, n, out) {
        StandingGoesOn(word, s, tag, m, n + 1);
      }
  }

  // ---- both loops ----

  /** What becomes of both loops: the second runs only on what the first leaves. */
  ghost function FenceFateOf(word: Words, s: string): Fate
    requires GoodWords(word)
  {
    Tags();
    var first := FateOf(word, s, CLOSE);
    if first.Ends? then FateOf(word, first.out, OPEN) else first
  }

  /** The loops return, with this text. */
  ghost predicate Returns(word: Words, s: string, out: string)
    requires GoodWords(word)
  {
    FenceFateOf(word, s) == Ends(out)
  }

  lemma EndLeavesNone(word: Words, s: string, tag: string)
    requires GoodWords(word) && TagLike(tag) && |tag| >= |PATCH| && FateOf(word, s, tag).Ends?
    ensures var out := FateOf(word, s, tag).out;
      Free(out, tag) && forall other | TagLike(other) && Free(s, other) :: Free(out, other)
  {
    var n, out := Turns(word, s, tag), FateOf(word, s, tag).out;
    FateShows(word, s, tag);
    EndedPassLeavesNone(word, s, tag, n, out, tag);
    forall other | TagLike(other) && Free(s, other) ensures Free(out, other) {
      EndedPassLeavesNone(word, s, tag, n, out, other);
    }
  }

  /** Whatever lowercasing shifts: if both loops return, the text they return holds neither tag. */
  lemma ReturnedIsFree(word: Words, s: string, out: string)
    requires GoodWords(word) && Returns(word, s, out)
    ensures Free(out, CLOSE) && Free(out, OPEN)
  {
    Tags();
    EndLeavesNone(word, s, CLOSE);
    EndLeavesNone(word, FateOf(word, s, CLOSE).out, OPEN);
  }

  /** The closing tag is longer than its patch, so its loop never stands still. */
  lemma {:induction false} ClosingLoopStops(word: Words, s: string)
    requires GoodWords(word)
    ensures TagLike(CLOSE) && |CLOSE| >= |PATCH| && !FateOf(word, s, CLOSE).StandsStill?
    decreases |s|
  {
    Tags();
    match TakeStep(word, s, CLOSE)
    case Finished =>
    case OutOfRange =>
    case Cut(t) =>
      CutLength(word, s, CLOSE);
      Settles(word, s, CLOSE);
      ClosingLoopStops(word, t);
  }

  /** On steady input a loop ends, with every occurrence replaced. */
  lemma {:induction false} SteadyEnds(word: Words, s: string, tag: string)
    requires GoodWords(word) && TagLike(tag) && |tag| >= |PATCH| && Steady(word, s, tag)
    ensures FateOf(word, s, tag) == Ends(ReplaceAll(s, tag))
    decreases Angles(s)
  {
    StopsExactly(word, s, tag);
    if First(s, tag).None? {
      NothingToReplace(s, tag);
    } else {
      var p := First(s, tag).value;
      assert p < |s|;
      StepExactly(word, s, tag);
      PatchingEnds(s, p, tag);
      PatchingKeepsTheAim(s, p, tag);
      SteadyAfterPatch(word, s, p, tag, tag);
      SteadyEnds(word, Patched(s, p, tag), tag);
    }
  }

  /** No tag shifted: both loops return, with the single scan's text. */
  lemma SteadyReturns(word: Words, s: string)
    requires GoodWords(word) && AllSteady(word, s)
    ensures Returns(word, s, Clean(s))
  {
    Tags();
    SteadyEnds(word, s, CLOSE);
    PassKeepsSteady(word, s, CLOSE, OPEN);
    SteadyEnds(word, ReplaceAll(s, CLOSE), OPEN);
    TwoPassesAreOneScan(s);
  }

  // ---- at inputs ----

  /** U+023A, which is two bytes and its lowercase form three. */
  const GROWS := "\U{C8}\U{BA}"

  /** Right before a closing tag at the end, it makes the slice run out of range. */
  lemma OverrunAtAnInput(word: Words)
    requires GoodWords(word) && word(GROWS) == "\U{E2}\U{B1}\U{A5}"
    ensures FenceFateOf(word, GROWS + CLOSE) == Overruns
  {
    Tags();
    LongerLowercaseOverruns(word);
  }

  /** A run that grows by sixteen bytes, an opening tag and a patch: the loop never ends. */
  lemma ForeverAtAnInput(word: Words, run: string)
    requires GoodWords(word) && run != [] && (forall i | 0 <= i < |run| :: !Ascii(run[i]))
    requires |word(run)| == |run| + 16
    ensures TagLike(OPEN) && |OPEN| >= |PATCH|
    ensures FateOf(word, run + OPEN + PATCH, OPEN) == StandsStill(run + OPEN + PATCH)
    ensures forall n: nat :: GoesOn(word, run + OPEN + PATCH, OPEN, n)
  {
    Tags();
    LoopStandsStill(word, run);
    ForeverExactly(word, run + OPEN + PATCH, OPEN);
  }

  lemma LoneAngleIsFree(s: string, tag: string)
    requires TagLike(tag) && |tag| > 1 && forall i | 0 <= i < |s| && s[i] == '<' :: i + 1 < |s| && s[i + 1] == '['
    ensures Free(s, tag)
  {
    forall q: nat | q < |s| ensures !Occurs(s, q, tag) {
      if s[q] != '<' {
        NoTagBegins(s, q, tag);
      } else {
        assert s[q + 1] == '[';
        if Occurs(s, q, tag) {
          OccurrenceIsAscii(s, q, tag);
        }
      }
    }
  }

  /** That byte pair, a closing tag and two bytes more. */
  const SHIFTED := GROWS + (CLOSE + "xx")
  const CUT_LATE := GROWS + ("<" + PATCH + "x")

  lemma ShiftedSlices()
    ensures |SHIFTED| == 21 && SHIFTED[..3] == GROWS + "<" && SHIFTED[20..] == "x"
    ensures SHIFTED[..3] + PATCH + SHIFTED[20..] == CUT_LATE
  {
    Tags();
    var tail := CLOSE + "xx";
    assert tail[0] == '<' && tail[18] == 'x';
    assert SHIFTED[..3] == GROWS + "<";
    assert SHIFTED[20..] == "x";
  }

  lemma CutLateIsFree()
    ensures Free(CUT_LATE, CLOSE) && Free(CUT_LATE, OPEN)
  {
    Tags();
    assert |CUT_LATE| == 20 && CUT_LATE[3] == PATCH[0];
    forall i | 0 <= i < 20 ensures CUT_LATE[i] == '<' ==> i == 2 {
      if 3 <= i < 19 {
        assert CUT_LATE[i] == PATCH[i - 3] && PATCH[i - 3] in PATCH;
      }
    }
    LoneAngleIsFree(CUT_LATE, CLOSE);
    LoneAngleIsFree(CUT_LATE, OPEN);
  }

  lemma ShiftedTurn(word: Words)
    requires GoodWords(word) && word(GROWS) == "\U{E2}\U{B1}\U{A5}"
    ensures TakeStep(word, SHIFTED, CLOSE) == Cut(CUT_LATE)
  {
    Tags();
    CloseOccurs("xx");
    ShiftedIndex(word, GROWS, CLOSE + "xx", CLOSE);
    ShiftedSlices();
    StepAt(word, SHIFTED, CLOSE, 3);
  }

  /** A shifted tag need not hinder the return: this one goes, but for its first byte, and a byte behind it with it. */
  lemma ShiftedButReturns(word: Words)
    requires GoodWords(word) && word(GROWS) == "\U{E2}\U{B1}\U{A5}"
    ensures Returns(word, SHIFTED, CUT_LATE) && !Steady(word, SHIFTED, CLOSE)
  {
    Tags();
    ShiftedTurn(word);
    CutLateIsFree();
    StopsExactly(word, CUT_LATE, CLOSE);
    StopsExactly(word, CUT_LATE, OPEN);
    assert |CUT_LATE| != |SHIFTED|;
    assert FateOf(word, CUT_LATE, CLOSE) == Ends(CUT_LATE);
    ShiftedIsNotSteady(word);
  }

  lemma CloseOccurs(post: string)
    ensures Occurs(CLOSE + post, 0, CLOSE)
  {
    Tags();
    var s := CLOSE + post;
    forall i | 0 <= i < 17 ensures LowerByte(s[i]) == CLOSE[i - 0] {
      assert s[i] == CLOSE[i] && CLOSE[i] in CLOSE;
    }
  }

  lemma ShiftedIsNotSteady(word: Words)
    requires GoodWords(word) && word(GROWS) == "\U{E2}\U{B1}\U{A5}"
    ensures !Steady(word, SHIFTED, CLOSE)
  {
    Tags();
    CloseOccurs("xx");
    OccursBehind(GROWS, CLOSE + "xx", 0, CLOSE);
    LowerOfRun(word, GROWS, []);
    assert GROWS + [] == GROWS == SHIFTED[..2];
    assert Lowered(word, SHIFTED, 2) == 3;
  }
}
