/**
  Neutralising the two memory-context tags, on byte strings: a char below 256 stands for a byte.
  Lowercasing works on single ASCII bytes and, through the parameter `word`, on maximal runs of
  other bytes, whose lowercase form may be longer or shorter than they are.
 */
module FenceSearch {
  import opened Options

  type Words = string -> string

  const CLOSE := "</memory-context>"
  const OPEN := "<memory-context>"
  const PATCH := "[memory-context]"

  predicate TagByte(c: char) { c in CLOSE }

  /** What case mapping does to runs of non-ASCII bytes: never nothing, and never a byte of a tag. */
  ghost predicate GoodWords(word: Words) {
    forall r | r != [] :: word(r) != [] && forall c | c in word(r) :: !TagByte(c)
  }

  predicate Ascii(c: char) { c < 128 as char }

  function LowerByte(c: char): char { if 'A' <= c <= 'Z' then c + 32 as char else c }

  /** The length of the run of non-ASCII bytes at the start. */
  function Run(s: string): (n: nat)
    ensures n <= |s|
    ensures forall i | 0 <= i < n :: !Ascii(s[i])
    ensures n < |s| ==> Ascii(s[n])
  {
    if s == [] || Ascii(s[0]) then 0 else 1 + Run(s[1..])
  }

  function Lower(word: Words, s: string): string {
    if s == [] then []
    else if Ascii(s[0]) then [LowerByte(s[0])] + Lower(word, s[1..])
    else word(s[..Run(s)]) + Lower(word, s[Run(s)..])
  }

  function Index(text: string, sub: string): Option<nat> {
    if |text| < |sub| then None
    else if text[..|sub|] == sub then Some(0)
    else if text == [] then None
    else match Index(text[1..], sub)
      case None => None
      case Some(i) => Some(i + 1)
  }

  function Plus(at: Option<nat>, n: nat): Option<nat> {
    match at
    case None => None
    case Some(i) => Some(i + n)
  }

  /** What the two tags have in common that the proofs need. */
  predicate TagLike(tag: string) {
    && tag != [] && tag[0] == '<' && tag[|tag| - 1] == '>'
    && (forall k | 0 < k < |tag| :: tag[k] != '<')
    && (forall c | c in tag :: TagByte(c) && c != '[' && Ascii(c) && LowerByte(c) == c)
  }

  lemma Tags()
    ensures TagLike(CLOSE) && TagLike(OPEN) && |CLOSE| == 17 && |OPEN| == 16
    ensures |PATCH| == 16 && PATCH[0] == '[' && PATCH[15] == ']'
    ensures forall c | c in PATCH :: c != '<' && Ascii(c)
  {
  }

  predicate Occurs(s: string, p: nat, tag: string) {
    p + |tag| <= |s| && forall i | p <= i < p + |tag| :: LowerByte(s[i]) == tag[i - p]
  }

  /** Where the first occurrence in any casing begins. */
  function First(s: string, tag: string): (at: Option<nat>)
    ensures at.Some? ==> Occurs(s, at.value, tag) && forall q: nat | q < at.value :: !Occurs(s, q, tag)
    ensures at.None? ==> forall q: nat | q < |s| :: !Occurs(s, q, tag)
  {
    FirstFrom(s, tag, 0)
  }

  function FirstFrom(s: string, tag: string, from: nat): (at: Option<nat>)
    requires from <= |s|
    ensures at.Some? ==> from <= at.value && Occurs(s, at.value, tag)
                         && forall q: nat | from <= q < at.value :: !Occurs(s, q, tag)
    ensures at.None? ==> forall q: nat | from <= q < |s| :: !Occurs(s, q, tag)
    decreases |s| - from
  {
    if Occurs(s, from, tag) then Some(from)
    else if from == |s| then None
    else FirstFrom(s, tag, from + 1)
  }

  // ---- lowercasing and positions ----

  lemma LowerOfRun(word: Words, r: string, rest: string)
    requires r != [] && (forall i | 0 <= i < |r| :: !Ascii(r[i])) && (rest == [] || Ascii(rest[0]))
    ensures Lower(word, r + rest) == word(r) + Lower(word, rest)
  {
    var s := r + rest;
    var n := Run(s);
    assert forall i | 0 <= i < |r| :: s[i] == r[i];
    assert rest != [] ==> s[|r|] == rest[0];
    assert s[..n] == r && s[n..] == rest;
    assert s[0] == r[0];
  }

  lemma LowerOfByte(word: Words, c: char, rest: string)
    requires Ascii(c)
    ensures Lower(word, [c] + rest) == [LowerByte(c)] + Lower(word, rest)
  {
    assert ([c] + rest)[1..] == rest;
  }

  /** Next to an ASCII byte a text can be lowercased in two parts. */
  lemma {:induction false} LowerSplits(word: Words, a: string, b: string)
    requires a == [] || Ascii(a[|a| - 1]) || b == [] || Ascii(b[0])
    ensures Lower(word, a + b) == Lower(word, a) + Lower(word, b)
    decreases |a|
  {
    if a == [] {
      assert a + b == b;
    } else if Ascii(a[0]) {
      LowerSplits(word, a[1..], b);
      ByteSplits(word, a[0], a[1..], b);
      HeadAndTail(a, 1);
    } else {
      var n := Run(a);
      LowerSplits(word, a[n..], b);
      RunStops(a, b);
      RunSplits(word, a[..n], a[n..], b);
      HeadAndTail(a, n);
    }
  }

  lemma Associates(a: string, b: string, c: string)
    ensures (a + b) + c == a + (b + c)
  {
  }

  lemma HeadAndTail(a: string, n: nat)
    requires n <= |a|
    ensures a[..n] + a[n..] == a
    ensures n == 1 ==> a[..n] == [a[0]]
  {
  }

  /** What follows the run at the start of a is ASCII, or nothing, also with b behind it. */
  lemma RunStops(a: string, b: string)
    requires a != [] && !Ascii(a[0]) && (Ascii(a[|a| - 1]) || b == [] || Ascii(b[0]))
    ensures var rest := a[Run(a)..];
      (rest == [] || Ascii(rest[0])) && (rest + b == [] || Ascii((rest + b)[0]))
  {
  }

  lemma ByteSplits(word: Words, c: char, a: string, b: string)
    requires Ascii(c) && Lower(word, a + b) == Lower(word, a) + Lower(word, b)
    ensures Lower(word, ([c] + a) + b) == Lower(word, [c] + a) + Lower(word, b)
  {
    Associates([c], a, b);
    LowerOfByte(word, c, a);
    LowerOfByte(word, c, a + b);
    Associates([LowerByte(c)], Lower(word, a), Lower(word, b));
  }

  lemma RunSplits(word: Words, r: string, a: string, b: string)
    requires r != [] && forall i | 0 <= i < |r| :: !Ascii(r[i])
    requires (a == [] || Ascii(a[0])) && (a + b == [] || Ascii((a + b)[0]))
    requires Lower(word, a + b) == Lower(word, a) + Lower(word, b)
    ensures Lower(word, (r + a) + b) == Lower(word, r + a) + Lower(word, b)
  {
    Associates(r, a, b);
    LowerOfRun(word, r, a);
    LowerOfRun(word, r, a + b);
    Associates(word(r), Lower(word, a), Lower(word, b));
  }

  lemma {:induction false} LowerOfAscii(word: Words, s: string)
    requires forall c | c in s :: Ascii(c)
    ensures |Lower(word, s)| == |s|
  {
    if s == [] {
    } else {
      assert s[0] in s;
      assert forall c | c in s[1..] :: c in s;
      LowerOfAscii(word, s[1..]);
    }
  }

  lemma OccurrenceIsAscii(s: string, p: nat, tag: string)
    requires TagLike(tag) && Occurs(s, p, tag)
    ensures forall i | p <= i < p + |tag| :: Ascii(s[i]) && s[i] != '['
    ensures s[p] == '<' && s[p + |tag| - 1] == '>'
    ensures forall i | p < i < p + |tag| :: s[i] != '<'
  {
    forall i | p <= i < p + |tag| ensures Ascii(s[i]) && s[i] != '[' && (s[i] == '<' <==> i == p) {
      assert tag[i - p] in tag;
    }
    assert LowerByte(s[p + |tag| - 1]) == tag[|tag| - 1];
  }

  /** A lowercased text starts with tag bytes just when the text does, in some casing. */
  lemma {:induction false} HeadMatches(word: Words, s: string, t: string)
    requires GoodWords(word)
    requires forall c | c in t :: TagByte(c) && Ascii(c)
    ensures t <= Lower(word, s) <==> Occurs(s, 0, t)
    decreases |t|
  {
    if t != [] && s != [] {
      assert t[0] in t;
      if Ascii(s[0]) {
        HeadMatches(word, s[1..], t[1..]);
        assert t == [t[0]] + t[1..];
        var low := Lower(word, s);
        assert low[1..] == Lower(word, s[1..]);
        assert t <= low <==> t[0] == low[0] && t[1..] <= low[1..];
        HeadOccurs(s, t);
      } else {
        var w := word(s[..Run(s)]);
        assert w[0] in w;
        assert Lower(word, s)[0] == w[0];
      }
    }
  }

  lemma HeadOccurs(s: string, t: string)
    requires s != [] && t != []
    ensures Occurs(s, 0, t) <==> LowerByte(s[0]) == t[0] && Occurs(s[1..], 0, t[1..])
  {
    if LowerByte(s[0]) == t[0] && Occurs(s[1..], 0, t[1..]) {
      forall i | 0 <= i < |t| ensures LowerByte(s[i]) == t[i - 0] {
        if i > 0 {
          assert s[i] == s[1..][i - 1] && t[i] == t[1..][i - 1];
        }
      }
    }
    if Occurs(s, 0, t) {
      forall i | 0 <= i < |t| - 1 ensures LowerByte(s[1..][i]) == t[1..][i - 0] {
        assert LowerByte(s[i + 1]) == t[i + 1];
      }
    }
  }

  lemma {:induction false} IndexSkips(w: string, text: string, tag: string)
    requires tag != [] && tag[0] !in w
    ensures Index(w + text, tag)
            == Plus(Index(text, tag), |w|)
  {
    if w == [] {
      assert w + text == text;
    } else {
      var all := w + text;
      assert all[1..] == w[1..] + text;
      IndexSkips(w[1..], text, tag);
      assert w[0] in w;
      assert all[0] == w[0];
    }
  }

  /** The shift between an occurrence in the lowercased text and in the text itself. */
  function Lowered(word: Words, s: string, p: nat): nat
    requires p <= |s|
  {
    |Lower(word, s[..p])|
  }

  lemma FirstFromShifts(r: string, s: string, tag: string, from: nat)
    requires from <= |s|
    ensures FirstFrom(r + s, tag, |r| + from)
            == Plus(FirstFrom(s, tag, from), |r|)
    decreases |s| - from
  {
    var all := r + s;
    assert Occurs(all, |r| + from, tag) <==> Occurs(s, from, tag) by {
      if Occurs(all, |r| + from, tag) {
        forall i | from <= i < from + |tag| ensures LowerByte(s[i]) == tag[i - from] {
          assert all[|r| + i] == s[i];
        }
      }
    }
    if !Occurs(s, from, tag) && from < |s| {
      FirstFromShifts(r, s, tag, from + 1);
    }
  }

  lemma FirstFromSkips(s: string, tag: string, n: nat)
    requires n <= |s| && forall q: nat | q < n :: !Occurs(s, q, tag)
    ensures FirstFrom(s, tag, 0) == FirstFrom(s, tag, n)
  {
    if n > 0 {
      FirstFromSkips(s, tag, n - 1);
    }
  }

  lemma NoTagBegins(s: string, q: nat, tag: string)
    requires TagLike(tag) && q < |s| && s[q] != '<'
    ensures !Occurs(s, q, tag)
  {
    if Occurs(s, q, tag) {
      OccurrenceIsAscii(s, q, tag);
    }
  }

  /** Searching behind a start that holds no tag. */
  lemma FirstAfter(r: string, rest: string, tag: string)
    requires TagLike(tag) && forall q: nat | q < |r| :: !Occurs(r + rest, q, tag)
    ensures First(r + rest, tag) == Plus(First(rest, tag), |r|)
  {
    FirstFromSkips(r + rest, tag, |r|);
    FirstFromShifts(r, rest, tag, 0);
  }

  lemma NoTagInBlock(r: string, rest: string, tag: string)
    requires TagLike(tag) && Block(r, rest) && !Occurs(r + rest, 0, tag)
    ensures forall q: nat | q < |r| :: !Occurs(r + rest, q, tag)
  {
    forall q: nat | q < |r| ensures !Occurs(r + rest, q, tag) {
      if q > 0 {
        NoTagBegins(r + rest, q, tag);
      }
    }
  }

  lemma FirstBehindBlock(word: Words, r: string, rest: string, tag: string)
    requires TagLike(tag) && Block(r, rest) && !Occurs(r + rest, 0, tag)
    ensures FoundAt(word, r + rest, tag) == Plus(FoundAt(word, rest, tag), |Lower(word, r)|)
  {
    NoTagInBlock(r, rest, tag);
    FirstAfter(r, rest, tag);
    match First(rest, tag)
    case None =>
    case Some(p) => FoundBehind(word, r, rest, tag, p);
  }

  lemma FoundBehind(word: Words, r: string, rest: string, tag: string, p: nat)
    requires Block(r, rest) && p <= |rest| && First(rest, tag) == Some(p) && First(r + rest, tag) == Some(|r| + p)
    ensures FoundAt(word, r + rest, tag) == Plus(FoundAt(word, rest, tag), |Lower(word, r)|)
  {
    LoweredBehind(word, r, rest, p);
  }

  /** Where the first occurrence lies, counted in lowercased bytes. */
  function FoundAt(word: Words, s: string, tag: string): Option<nat> {
    match First(s, tag)
    case None => None
    case Some(p) => Some(Lowered(word, s, p))
  }

  /** What the search in the lowercased text finds. */
  lemma {:induction false} IndexOfFirst(word: Words, s: string, tag: string)
    requires GoodWords(word) && TagLike(tag)
    ensures Index(Lower(word, s), tag) == FoundAt(word, s, tag)
    decreases |s|
  {
    if s == [] {
    } else if Occurs(s, 0, tag) {
      HeadMatches(word, s, tag);
      assert s[..0] == [];
    } else {
      var n := if Ascii(s[0]) then 1 else Run(s);
      IndexOfFirst(word, s[n..], tag);
      assert s == s[..n] + s[n..];
      IndexBehind(word, s[..n], s[n..], tag);
      FirstBehindBlock(word, s[..n], s[n..], tag);
    }
  }

  predicate Block(r: string, rest: string) {
    || (|r| == 1 && Ascii(r[0]))
    || (r != [] && (forall i | 0 <= i < |r| :: !Ascii(r[i])) && (rest == [] || Ascii(rest[0])))
  }

  lemma LowerOfBlock(word: Words, r: string, rest: string)
    requires Block(r, rest)
    ensures Lower(word, r + rest) == Lower(word, r) + Lower(word, rest)
    ensures |r| == 1 && Ascii(r[0]) ==> Lower(word, r) == [LowerByte(r[0])]
    ensures !Ascii(r[0]) ==> Lower(word, r) == word(r)
  {
    assert r + [] == r;
    if Ascii(r[0]) {
      assert r == [r[0]];
      LowerOfByte(word, r[0], rest);
      LowerOfByte(word, r[0], []);
    } else {
      LowerOfRun(word, r, rest);
      LowerOfRun(word, r, []);
    }
  }

  lemma IndexBehindByte(low: string, c: char, tag: string)
    requires !(tag <= [c] + low) && tag != []
    ensures Index([c] + low, tag) == Plus(Index(low, tag), 1)
  {
    var all := [c] + low;
    assert all[1..] == low;
    assert |all| >= |tag| ==> all[..|tag|] != tag;
  }

  lemma BlockHoldsNoTagStart(word: Words, r: string, rest: string, tag: string)
    requires GoodWords(word) && TagLike(tag) && Block(r, rest)
    ensures |Lower(word, r)| == 1 || tag[0] !in Lower(word, r)
  {
    LowerOfBlock(word, r, rest);
    assert tag[0] in tag;
  }

  lemma IndexBehindParts(a: string, low: string, tag: string)
    requires tag != [] && !(tag <= a + low) && (|a| == 1 || tag[0] !in a)
    ensures Index(a + low, tag) == Plus(Index(low, tag), |a|)
  {
    if |a| == 1 {
      assert a == [a[0]];
      IndexBehindByte(low, a[0], tag);
    } else {
      IndexSkips(a, low, tag);
    }
  }

  lemma IndexBehind(word: Words, r: string, rest: string, tag: string)
    requires GoodWords(word) && TagLike(tag) && Block(r, rest) && !Occurs(r + rest, 0, tag)
    ensures Index(Lower(word, r + rest), tag) == Plus(Index(Lower(word, rest), tag), |Lower(word, r)|)
  {
    HeadMatches(word, r + rest, tag);
    LowerOfBlock(word, r, rest);
    BlockHoldsNoTagStart(word, r, rest, tag);
    IndexBehindParts(Lower(word, r), Lower(word, rest), tag);
  }

  lemma LoweredBehind(word: Words, r: string, rest: string, p: nat)
    requires Block(r, rest) && p <= |rest|
    ensures Lowered(word, r + rest, |r| + p) == |Lower(word, r)| + Lowered(word, rest, p)
  {
    assert (r + rest)[..|r| + p] == r + rest[..p];
    assert Block(r, rest[..p]);
    LowerOfBlock(word, r, rest[..p]);
  }

  /** The delimiters and what is put in their place. */
  lemma Delimiters()
    ensures CLOSE == "</memory-context>" && OPEN == "<memory-context>" && PATCH == "[memory-context]"
  {
  }

  /** A tag in any casing: each byte is the tag's, or the capital of it where that is a letter. */
  lemma OccursExactly(s: string, p: nat, tag: string)
    requires TagLike(tag)
    ensures Occurs(s, p, tag) <==>
            && p + |tag| <= |s|
            && forall i | 0 <= i < |tag| ::
                 s[p + i] == tag[i] || ('a' <= tag[i] <= 'z' && s[p + i] as int == tag[i] as int - 32)
  {
    if p + |tag| <= |s| {
      forall i | 0 <= i < |tag|
        ensures LowerByte(s[p + i]) == tag[i] <==>
                s[p + i] == tag[i] || ('a' <= tag[i] <= 'z' && s[p + i] as int == tag[i] as int - 32)
      {
        assert tag[i] in tag;
      }
      if Occurs(s, p, tag) {
        forall i | 0 <= i < |tag| ensures LowerByte(s[p + i]) == tag[i] {
          assert p <= p + i < p + |tag|;
        }
      } else {
        var j :| p <= j < p + |tag| && LowerByte(s[j]) != tag[j - p];
        assert LowerByte(s[p + (j - p)]) != tag[j - p];
      }
    }
  }
}
