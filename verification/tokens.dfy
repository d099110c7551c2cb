/**
  Estimating token counts. A text is what ranging over a Go string yields: characters, and single
  stray bytes where the encoding is broken. How characters are classed is a parameter.
 */
module Tokens {

  datatype Piece = Char(c: char) | Stray

  type Text = seq<Piece>

  datatype Class = Cjk | Space | Other

  type Classes = char -> Class

  /** ASCII white space is space, other ASCII is neither; nor is U+FFFD, as which a stray byte is read. */
  ghost predicate GoodClasses(classes: Classes) {
    && (forall c: char | c < 128 as char ::
          classes(c) == if c in " \t\n\r\U{000B}\U{000C}" then Space else Other)
    && classes('\U{FFFD}') == Other
  }

  function ClassOf(classes: Classes, p: Piece): Class {
    match p
    case Char(c) => classes(c)
    case Stray => classes('\U{FFFD}')
  }

  function Str(s: string): (t: Text)
    ensures |t| == |s|
  {
    seq(|s|, i requires 0 <= i < |s| => Char(s[i]))
  }

  function CeilQuarter(n: nat): nat { (n + 3) / 4 }

  /** How many pieces at the end form a run that is neither CJK nor space. */
  function Run(classes: Classes, text: Text): (n: nat)
    ensures n <= |text|
  {
    if text == [] || ClassOf(classes, text[|text| - 1]) != Other then 0
    else 1 + Run(classes, text[..|text| - 1])
  }

  /** Every CJK character is a token, and so is every fourth piece of a run, from its first on. */
  predicate Starts(classes: Classes, text: Text, i: nat)
    requires i < |text|
  {
    match ClassOf(classes, text[i])
    case Cjk => true
    case Space => false
    case Other => Run(classes, text[..i]) % 4 == 0
  }

  function Count(classes: Classes, text: Text): nat {
    |set i: nat | i < |text| && Starts(classes, text, i)|
  }

  lemma StartsInPrefix(classes: Classes, text: Text, n: nat, i: nat)
    requires i < n <= |text|
    ensures Starts(classes, text[..n], i) <==> Starts(classes, text, i)
  {
    assert text[..n][..i] == text[..i];
  }

  lemma CountOfMore(classes: Classes, text: Text, p: Piece)
    ensures var more := text + [p];
      && Count(classes, more)
         == Count(classes, text)
            + (match ClassOf(classes, p) case Cjk => 1 case Space => 0
               case Other => if Run(classes, text) % 4 == 0 then 1 else 0)
      && Run(classes, more) == if ClassOf(classes, p) == Other then Run(classes, text) + 1 else 0
  {
    var more, n := text + [p], |text|;
    assert more[..n] == text;
    var was := set i: nat | i < n && Starts(classes, text, i);
    var now := set i: nat | i < n + 1 && Starts(classes, more, i);
    forall i: nat | i < n ensures Starts(classes, text, i) <==> Starts(classes, more, i) {
      StartsInPrefix(classes, more, n, i);
    }
    if Starts(classes, more, n) {
      assert now == was + {n};
    } else {
      assert now == was;
    }
  }

  lemma CountOfNothing(classes: Classes)
    ensures Count(classes, []) == 0
  {
    var none: Text := [];
    assert (set i: nat | i < |none| && Starts(classes, none, i)) == {};
  }

  /** The run that is pending is counted by rounding up when it ends. */
  method CountTokens(classes: Classes, text: Text) returns (tokens: nat)
    ensures tokens == Count(classes, text)
  {
    tokens := 0;
    var asciiRun := 0;
    CountOfNothing(classes);
    for i := 0 to |text|
      invariant asciiRun == Run(classes, text[..i])
      invariant tokens + CeilQuarter(asciiRun) == Count(classes, text[..i])
    {
      CountOfMore(classes, text[..i], text[i]);
      assert text[..i + 1] == text[..i] + [text[i]];
      match ClassOf(classes, text[i]) {
        case Cjk =>
          tokens, asciiRun := Flush(tokens, asciiRun);
          tokens := tokens + 1;
        case Space =>
          tokens, asciiRun := Flush(tokens, asciiRun);
        case Other =>
          asciiRun := asciiRun + 1;
      }
    }
    assert text[..|text|] == text;
    tokens, asciiRun := Flush(tokens, asciiRun);
  }

  method Flush(tokens: nat, asciiRun: nat) returns (total: nat, run: nat)
    ensures total == tokens + CeilQuarter(asciiRun) && run == 0
  {
    total, run := tokens, asciiRun;
    if asciiRun > 0 {
      total, run := tokens + (asciiRun + 3) / 4, 0;
    }
  }

  // ---- putting texts together ----

  /** How many pieces at the start form a run. */
  function Lead(classes: Classes, text: Text): (n: nat)
    ensures n <= |text|
  {
    if text == [] || ClassOf(classes, text[0]) != Other then 0 else 1 + Lead(classes, text[1..])
  }

  lemma {:induction false} LeadOfMore(classes: Classes, text: Text, p: Piece)
    ensures Lead(classes, text + [p])
            == if Lead(classes, text) == |text| && ClassOf(classes, p) == Other then |text| + 1
               else Lead(classes, text)
  {
    if text == [] {
      assert (text + [p])[1..] == [];
    } else {
      assert (text + [p])[1..] == text[1..] + [p];
      LeadOfMore(classes, text[1..], p);
    }
  }

  /** What the seam between two texts saves: two partial tokens may become one. */
  function Saved(k: nat, l: nat): int { CeilQuarter(k) + CeilQuarter(l) - CeilQuarter(k + l) }

  lemma SavedBounds(k: nat, l: nat)
    ensures 0 <= Saved(k, l) <= 1
    ensures Saved(k, l) == 0 <==> k % 4 == 0 || l % 4 == 0 || k % 4 + l % 4 > 4
  {
  }

  /** One piece more on the right. */
  lemma SeamOfMore(classes: Classes, a: Text, b: Text, p: Piece)
    requires Count(classes, a + b)
             == Count(classes, a) + Count(classes, b) - Saved(Run(classes, a), Lead(classes, b))
    requires Run(classes, a + b)
             == if Lead(classes, b) == |b| then Run(classes, a) + |b| else Run(classes, b)
    requires Lead(classes, b) == |b| ==> Run(classes, b) == |b|
    ensures var c := b + [p];
      && Count(classes, (a + b) + [p])
         == Count(classes, a) + Count(classes, c) - Saved(Run(classes, a), Lead(classes, c))
      && Run(classes, (a + b) + [p])
         == (if Lead(classes, c) == |c| then Run(classes, a) + |c| else Run(classes, c))
      && (Lead(classes, c) == |c| ==> Run(classes, c) == |c|)
  {
    CountOfMore(classes, b, p);
    CountOfMore(classes, a + b, p);
    LeadOfMore(classes, b, p);
    SeamArithmetic(Run(classes, a), |b|);
  }

  lemma {:induction false} SeamSplits(classes: Classes, a: Text, b: Text)
    ensures Count(classes, a + b)
            == Count(classes, a) + Count(classes, b) - Saved(Run(classes, a), Lead(classes, b))
    ensures Run(classes, a + b)
            == if Lead(classes, b) == |b| then Run(classes, a) + |b| else Run(classes, b)
    ensures Lead(classes, b) == |b| ==> Run(classes, b) == |b|
  {
    if b == [] {
      assert a + b == a;
      CountOfNothing(classes);
    } else {
      var n := |b| - 1;
      SeamSplits(classes, a, b[..n]);
      SeamOfMore(classes, a, b[..n], b[n]);
      assert b == b[..n] + [b[n]] && a + b == (a + b[..n]) + [b[n]];
    }
  }

  lemma SeamArithmetic(k: nat, n: nat)
    ensures CeilQuarter(n + 1) == CeilQuarter(n) + if n % 4 == 0 then 1 else 0
    ensures CeilQuarter(k + n + 1) == CeilQuarter(k + n) + if (k + n) % 4 == 0 then 1 else 0
  {
  }

  /** A text appended costs what it costs alone or one token less; the run over the seam decides. */
  lemma CountOfConcat(classes: Classes, a: Text, b: Text)
    ensures Count(classes, a) + Count(classes, b) - 1 <= Count(classes, a + b)
            <= Count(classes, a) + Count(classes, b)
    ensures Count(classes, a + b) == Count(classes, a) + Count(classes, b)
            <==> var k, l := Run(classes, a) % 4, Lead(classes, b) % 4; k == 0 || l == 0 || k + l > 4
  {
    SeamSplits(classes, a, b);
    SavedBounds(Run(classes, a), Lead(classes, b));
  }
}
