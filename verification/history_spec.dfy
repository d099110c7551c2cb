/** Compressing a message history, and what it does to the token count. */
module HistorySpec {
  import opened Options
  import opened Tokens

  datatype Message = Message(role: Text, kind: Text, content: Text, createdAt: int)

  const TRIMMED_NOTE := "[tool_result_trimmed]"
  const MARKER := "\n" + TRIMMED_NOTE

  function RenderOne(m: Message): Text {
    (if m.role != [] then m.role + Str(": ") else [])
    + (if m.kind != [] then Str("[") + m.kind + Str("] ") else [])
    + m.content + Str("\n")
  }

  function Render(messages: seq<Message>): Text {
    if messages == [] then []
    else Render(messages[..|messages| - 1]) + RenderOne(messages[|messages| - 1])
  }

  // ---- sizes in bytes, and cutting at a byte ----

  function Width(p: Piece): nat {
    match p
    case Stray => 1
    case Char(c) =>
      if c < 0x80 as char then 1 else if c < 0x800 as char then 2
      else if c as int < 0x1_0000 then 3 else 4
  }

  function Bytes(text: Text): nat {
    if text == [] then 0 else Width(text[0]) + Bytes(text[1..])
  }

  /** The first n bytes: a character cut through leaves its bytes behind one by one. */
  function Cut(text: Text, n: nat): Text {
    if text == [] || n == 0 then []
    else if Width(text[0]) <= n then [text[0]] + Cut(text[1..], n - Width(text[0]))
    else seq(n, i requires 0 <= i < n => Stray)
  }

  predicate TooLong(m: Message, limit: int) {
    limit > 0 && m.kind == Str("tool_result") && Bytes(m.content) > limit
  }

  function TrimOne(m: Message, limit: int): Message {
    if TooLong(m, limit) then m.(content := Cut(m.content, limit) + Str(MARKER)) else m
  }

  function Trimmed(messages: seq<Message>, limit: int): (out: seq<Message>)
    ensures |out| == |messages|
  {
    seq(|messages|, i requires 0 <= i < |messages| => TrimOne(messages[i], limit))
  }

  // ---- the split ----

  datatype Parts = Parts(head: seq<Message>, middle: seq<Message>, tail: seq<Message>)

  function Min(a: nat, b: nat): nat { if a < b then a else b }

  /** The head takes what it may first; head and tail never overlap. */
  function Split(messages: seq<Message>, headCount: nat, tailCount: nat): (p: Parts)
    ensures p.head + p.middle + p.tail == messages
    ensures |p.head| == Min(headCount, |messages|)
    ensures |p.tail| == Min(tailCount, |messages| - |p.head|)
  {
    var h := Min(headCount, |messages|);
    var t := |messages| - Min(tailCount, |messages| - h);
    Parts(messages[..h], messages[h..t], messages[t..])
  }

  // ---- the whole ----

  type Counter = Text -> int

  /** The model that is asked for a summary; None is its failure. */
  type Summarizer = Text -> Option<Text>

  datatype Config = Config(
    limit: int, head: nat, tail: nat, toolMax: int, summarizer: Option<Summarizer>)

  function NewConfig(limit: int, head: int, tail: int, toolMax: int, summarizer: Option<Summarizer>): Config {
    Config(limit, if head < 0 then 0 else head, if tail < 0 then 0 else tail, toolMax, summarizer)
  }

  datatype Strategy = NoCompression | TrimProtect | FourLayer

  datatype Report = Report(strategy: Strategy, layers: seq<int>, before: int, after: int, summary: Text)

  datatype Result = Compressed(messages: seq<Message>, report: Report) | Cancelled | SummaryFailed

  function Trim(classes: Classes, text: Text): Text {
    if text == [] then []
    else if ClassOf(classes, text[0]) == Space then Trim(classes, text[1..])
    else TrimEnd(classes, text)
  }

  function TrimEnd(classes: Classes, text: Text): Text {
    if text == [] then []
    else if ClassOf(classes, text[|text| - 1]) == Space then TrimEnd(classes, text[..|text| - 1])
    else text
  }

  const INSTRUCTION := "Summarize middle context for continued task execution.\n\n"

  function Ask(classes: Classes, ask: Summarizer, middle: seq<Message>): Option<Text> {
    match ask(Str(INSTRUCTION) + Render(middle))
    case None => None
    case Some(answer) => Some(Trim(classes, answer))
  }

  function SummaryMessage(summary: Text, now: int): Message {
    Message(Str("system"), Str("summary"), summary, now)
  }

  /** What is done with a history that is over the limit, once its tool results are trimmed. */
  function Reduce(
      classes: Classes, count: Counter, cfg: Config, trimmed: seq<Message>, layers: seq<int>, before: int, now: int)
    : Result
  {
    var p := Split(trimmed, cfg.head, cfg.tail);
    match cfg.summarizer
    case None =>
      var out := p.head + p.tail;
      Compressed(out, Report(TrimProtect, layers, before, count(Render(out)), []))
    case Some(ask) =>
      match Ask(classes, ask, p.middle)
      case None => SummaryFailed
      case Some(summary) =>
        var out := p.head + [SummaryMessage(summary, now)] + p.tail;
        Compressed(out, Report(FourLayer, layers + [3], before, count(Render(out)), summary))
  }

  function CompressHistory(
      classes: Classes, count: Counter, cfg: Config, messages: seq<Message>, now: int): Result {
    var before := count(Render(messages));
    if cfg.limit <= 0 || before <= cfg.limit then
      Compressed(messages, Report(NoCompression, [], before, before, []))
    else
      var layers := if exists m | m in messages :: TooLong(m, cfg.toolMax) then [1, 2] else [2];
      Reduce(classes, count, cfg, Trimmed(messages, cfg.toolMax), layers, before, now)
  }

  // ---- the default counter adds up over messages ----

  function DefaultCounter(classes: Classes): Counter { text => Count(classes, text) }

  function TokensOf(classes: Classes, messages: seq<Message>): nat {
    if messages == [] then 0
    else TokensOf(classes, messages[..|messages| - 1]) + Count(classes, RenderOne(messages[|messages| - 1]))
  }

  lemma RenderedEndsRun(classes: Classes, m: Message)
    requires GoodClasses(classes)
    ensures Run(classes, RenderOne(m)) == 0
  {
    var t := RenderOne(m);
    assert t[|t| - 1] == Str("\n")[0] == Char('\n');
  }

  lemma {:induction false} RenderEndsRun(classes: Classes, messages: seq<Message>)
    requires GoodClasses(classes)
    ensures Run(classes, Render(messages)) == 0
  {
    if messages == [] {
    } else {
      var n := |messages| - 1;
      var t := RenderOne(messages[n]);
      RenderedEndsRun(classes, messages[n]);
      SeamSplits(classes, Render(messages[..n]), t);
      assert Lead(classes, t) == |t| ==> Run(classes, t) == |t|;
    }
  }

  /** Rendered messages are counted one by one: the line feed behind each closes its last run. */
  lemma {:induction false} RenderedCountsAddUp(classes: Classes, messages: seq<Message>)
    requires GoodClasses(classes)
    ensures Count(classes, Render(messages)) == TokensOf(classes, messages)
  {
    if messages == [] {
      CountOfNothing(classes);
    } else {
      var n := |messages| - 1;
      RenderedCountsAddUp(classes, messages[..n]);
      RenderEndsRun(classes, messages[..n]);
      CountOfConcat(classes, Render(messages[..n]), RenderOne(messages[n]));
    }
  }

  lemma {:induction false} TokensOfConcat(classes: Classes, a: seq<Message>, b: seq<Message>)
    ensures TokensOf(classes, a + b) == TokensOf(classes, a) + TokensOf(classes, b)
  {
    if b == [] {
      assert a + b == a;
    } else {
      var n := |b| - 1;
      assert (a + b)[..|a| + n] == a + b[..n];
      TokensOfConcat(classes, a, b[..n]);
    }
  }

  /** What a history costs after a step that went over the limit, by messages dropped and added. */
  lemma DroppedAndAdded(classes: Classes, all: seq<Message>, p: Parts, added: seq<Message>)
    requires GoodClasses(classes) && all == p.head + p.middle + p.tail
    ensures Count(classes, Render(p.head + added + p.tail))
            == TokensOf(classes, all) - TokensOf(classes, p.middle) + TokensOf(classes, added)
  {
    RenderedCountsAddUp(classes, p.head + added + p.tail);
    TokensOfConcat(classes, p.head + added, p.tail);
    TokensOfConcat(classes, p.head, added);
    TokensOfConcat(classes, p.head + p.middle, p.tail);
    TokensOfConcat(classes, p.head, p.middle);
  }

  /** Trimming cuts away white space at both ends and nothing else, and leaves none there. */
  lemma {:induction false} TrimExactly(classes: Classes, text: Text) returns (i: nat, j: nat)
    ensures i <= j <= |text| && Trim(classes, text) == text[i..j]
    ensures forall k | 0 <= k < i || j <= k < |text| :: ClassOf(classes, text[k]) == Space
    ensures i < j ==> ClassOf(classes, text[i]) != Space && ClassOf(classes, text[j - 1]) != Space
  {
    if text == [] {
      i, j := 0, 0;
    } else if ClassOf(classes, text[0]) == Space {
      i, j := TrimExactly(classes, text[1..]);
      assert forall k | 0 < k < |text| :: text[k] == text[1..][k - 1];
      i, j := i + 1, j + 1;
    } else {
      i := 0;
      j := TrimEndExactly(classes, text);
    }
  }

  lemma {:induction false} TrimEndExactly(classes: Classes, text: Text) returns (j: nat)
    ensures j <= |text| && TrimEnd(classes, text) == text[..j]
    ensures forall k | j <= k < |text| :: ClassOf(classes, text[k]) == Space
    ensures j > 0 ==> ClassOf(classes, text[j - 1]) != Space
  {
    if text == [] || ClassOf(classes, text[|text| - 1]) != Space {
      j := |text|;
    } else {
      j := TrimEndExactly(classes, text[..|text| - 1]);
    }
  }

  // ---- what the summary costs ----

  lemma {:induction false} CountOfOthers(classes: Classes, text: Text)
    requires forall p | p in text :: ClassOf(classes, p) == Other
    ensures Count(classes, text) == CeilQuarter(|text|) && Run(classes, text) == |text|
  {
    if text == [] {
      CountOfNothing(classes);
    } else {
      var n := |text| - 1;
      assert text[n] in text;
      assert forall p | p in text[..n] :: p in text;
      CountOfOthers(classes, text[..n]);
      CountOfMore(classes, text[..n], text[n]);
      SeamArithmetic(0, n);
      assert text == text[..n] + [text[n]];
    }
  }

  /** After a text that ends no run and before one that starts none, counts add up. */
  lemma CleanSeam(classes: Classes, a: Text, b: Text)
    requires Run(classes, a) == 0 || Lead(classes, b) == 0
    ensures Count(classes, a + b) == Count(classes, a) + Count(classes, b)
  {
    CountOfConcat(classes, a, b);
  }

  lemma SpaceAlone(classes: Classes, p: Piece)
    requires ClassOf(classes, p) == Space
    ensures Count(classes, [p]) == 0 && Run(classes, [p]) == 0 && Lead(classes, [p]) == 0
  {
    CountOfNothing(classes);
    CountOfMore(classes, [], p);
    assert [] + [p] == [p];
  }

  lemma {:induction false} CountOfTrimEnd(classes: Classes, text: Text)
    ensures Count(classes, TrimEnd(classes, text)) == Count(classes, text)
  {
    if text == [] {
    } else {
      var n := |text| - 1;
      if ClassOf(classes, text[n]) == Space {
        CountOfTrimEnd(classes, text[..n]);
        CountOfMore(classes, text[..n], text[n]);
        assert text == text[..n] + [text[n]];
      }
    }
  }

  /** White space at the ends is never counted. */
  lemma {:induction false} CountOfTrim(classes: Classes, text: Text)
    ensures Count(classes, Trim(classes, text)) == Count(classes, text)
  {
    if text == [] {
    } else {
      if ClassOf(classes, text[0]) == Space {
        CountOfTrim(classes, text[1..]);
        SpaceAlone(classes, text[0]);
        CleanSeam(classes, [text[0]], text[1..]);
        assert text == [text[0]] + text[1..];
      } else {
        CountOfTrimEnd(classes, text);
      }
    }
  }

  /** A word of printable ASCII and the space or line feed behind it. */
  lemma WordThenSpace(classes: Classes, word: string, gap: char, rest: Text)
    requires GoodClasses(classes) && (gap == ' ' || gap == '\n')
    requires forall c | c in word :: c < 128 as char && c !in " \t\n\r\U{000B}\U{000C}"
    ensures Count(classes, Str(word) + [Char(gap)] + rest) == CeilQuarter(|word|) + Count(classes, rest)
    ensures Run(classes, Str(word) + [Char(gap)]) == 0
  {
    var w, g := Str(word), [Char(gap)];
    forall p | p in w ensures ClassOf(classes, p) == Other {
      var i :| 0 <= i < |w| && w[i] == p;
      assert word[i] in word;
    }
    CountOfOthers(classes, w);
    SpaceAlone(classes, Char(gap));
    CleanSeam(classes, w, g);
    CountOfMore(classes, w, Char(gap));
    CleanSeam(classes, w + g, rest);
  }

  lemma SummaryRendered(summary: Text, now: int)
    ensures RenderOne(SummaryMessage(summary, now))
            == Str("system:") + [Char(' ')] + (Str("[summary]") + [Char(' ')] + (summary + Str("\n")))
  {
    assert Str("system") + Str(": ") == Str("system:") + [Char(' ')];
    assert Str("[") + Str("summary") + Str("] ") == Str("[summary]") + [Char(' ')];
  }

  /** The summary's message costs five tokens more than the model's untrimmed answer. */
  lemma SummaryCost(classes: Classes, answer: Text, now: int)
    requires GoodClasses(classes)
    ensures TokensOf(classes, [SummaryMessage(Trim(classes, answer), now)]) == 5 + Count(classes, answer)
  {
    var summary := Trim(classes, answer);
    var m := SummaryMessage(summary, now);
    assert [m][..0] == [];
    SummaryRendered(summary, now);
    SummaryLineCost(classes, summary);
    CountOfTrim(classes, answer);
  }

  lemma SummaryLineCost(classes: Classes, summary: Text)
    requires GoodClasses(classes)
    ensures Count(classes, Str("system:") + [Char(' ')] + (Str("[summary]") + [Char(' ')] + (summary + Str("\n"))))
            == 5 + Count(classes, summary)
  {
    var rest := summary + Str("\n");
    WordThenSpace(classes, "system:", ' ', Str("[summary]") + [Char(' ')] + rest);
    WordThenSpace(classes, "[summary]", ' ', rest);
    assert Str("\n") == [Char('\n')];
    SpaceAlone(classes, Char('\n'));
    CleanSeam(classes, summary, Str("\n"));
  }

  /** The report's two numbers, exactly: what was trimmed, what the middle cost, what the summary costs. */
  lemma ExactAccounting(classes: Classes, cfg: Config, messages: seq<Message>, now: int)
    requires GoodClasses(classes)
    ensures match CompressHistory(classes, DefaultCounter(classes), cfg, messages, now)
      case Cancelled => false
      case SummaryFailed => cfg.summarizer.Some?
      case Compressed(out, r) =>
        && r.before == TokensOf(classes, messages)
        && r.after == TokensOf(classes, out)
        && (r.strategy == NoCompression <==> cfg.limit <= 0 || r.before <= cfg.limit)
        && (if r.strategy == NoCompression then out == messages && r.after == r.before
            else
              var trimmed := Trimmed(messages, cfg.toolMax);
              var middle := Split(trimmed, cfg.head, cfg.tail).middle;
              match cfg.summarizer
              case None =>
                r.after == TokensOf(classes, trimmed) - TokensOf(classes, middle)
              case Some(ask) =>
                var answer := ask(Str(INSTRUCTION) + Render(middle));
                answer.Some? && r.after == TokensOf(classes, trimmed) - TokensOf(classes, middle)
                                           + 5 + Count(classes, answer.value))
  {
    RenderedCountsAddUp(classes, messages);
    var trimmed := Trimmed(messages, cfg.toolMax);
    var p := Split(trimmed, cfg.head, cfg.tail);
    var result := CompressHistory(classes, DefaultCounter(classes), cfg, messages, now);
    if result.Compressed? && result.report.strategy != NoCompression {
      RenderedCountsAddUp(classes, result.messages);
      match cfg.summarizer {
        case None =>
          DroppedAndAdded(classes, trimmed, p, []);
          assert p.head + [] == p.head;
        case Some(ask) =>
          var answer := ask(Str(INSTRUCTION) + Render(p.middle));
          DroppedAndAdded(classes, trimmed, p, [SummaryMessage(Trim(classes, answer.value), now)]);
          SummaryCost(classes, answer.value, now);
      }
    }
  }

  // ---- what trimming costs ----

  lemma CutOfNext(text: Text, n: nat, j: nat, k: nat)
    requires text != [] && 0 < n && Width(text[0]) <= n && j < |text|
    requires Cut(text[1..], n - Width(text[0])) == text[1..][..j] + Strays(k)
    ensures Cut(text, n) == text[..j + 1] + Strays(k)
    ensures Bytes(Cut(text, n)) == Width(text[0]) + Bytes(Cut(text[1..], n - Width(text[0])))
  {
    assert text[..j + 1] == [text[0]] + text[1..][..j];
    assert Cut(text, n)[1..] == Cut(text[1..], n - Width(text[0]));
  }

  /** A cut is a start of the text and at most three stray bytes. */
  lemma {:induction false} CutParts(text: Text, n: nat) returns (j: nat, k: nat)
    ensures j <= |text| && k <= 3 && Cut(text, n) == text[..j] + Strays(k)
    ensures Bytes(text) >= n ==> Bytes(Cut(text, n)) == n
  {
    if text == [] || n == 0 {
      j, k := 0, 0;
    } else if Width(text[0]) <= n {
      j, k := CutParts(text[1..], n - Width(text[0]));
      CutOfNext(text, n, j, k);
      j := j + 1;
    } else {
      j, k := 0, n;
      BytesOfStrays(n);
    }
  }

  function Strays(k: nat): Text { seq(k, i requires 0 <= i < k => Stray) }

  lemma {:induction false} BytesOfStrays(k: nat)
    ensures Bytes(Strays(k)) == k
  {
    if k == 0 {
    } else {
      assert Strays(k)[1..] == Strays(k - 1);
      BytesOfStrays(k - 1);
    }
  }

  lemma {:induction false} CountGrows(classes: Classes, a: Text, b: Text)
    ensures Count(classes, a) <= Count(classes, a + b)
  {
    if b == [] {
      assert a + b == a;
    } else {
      var n := |b| - 1;
      CountGrows(classes, a, b[..n]);
      CountOfMore(classes, a + b[..n], b[n]);
      assert a + b == (a + b[..n]) + [b[n]];
    }
  }

  lemma CutCount(classes: Classes, pre: Text, text: Text, n: nat)
    requires GoodClasses(classes)
    ensures Count(classes, pre + Cut(text, n)) <= Count(classes, pre + text) + 1
  {
    var j, k := CutParts(text, n);
    var start := pre + text[..j];
    assert pre + Cut(text, n) == start + Strays(k);
    CountOfOthers(classes, Strays(k));
    CountOfConcat(classes, start, Strays(k));
    assert pre + text == start + text[j..];
    CountGrows(classes, start, text[j..]);
  }

  function Heading(m: Message): Text {
    (if m.role != [] then m.role + Str(": ") else [])
    + (if m.kind != [] then Str("[") + m.kind + Str("] ") else [])
  }

  lemma StrOfConcat(a: string, b: string)
    ensures Str(a + b) == Str(a) + Str(b)
  {
  }

  lemma MarkerCount(classes: Classes, start: Text)
    requires GoodClasses(classes)
    ensures Count(classes, start + Str(MARKER) + Str("\n")) == Count(classes, start) + 6
  {
    var lf := [Char('\n')];
    var note := Str(TRIMMED_NOTE) + lf + [];
    StrOfConcat("\n", TRIMMED_NOTE);
    assert Str("\n") == lf;
    assert start + (lf + Str(TRIMMED_NOTE)) + lf == (start + lf) + note;
    WordThenSpace(classes, TRIMMED_NOTE, '\n', []);
    CountOfNothing(classes);
    CountOfMore(classes, start, Char('\n'));
    CleanSeam(classes, start + lf, note);
  }

  /** A trimmed tool result may cost more than it did, but by no more than seven tokens. */
  lemma TrimmingCostsAtMost(classes: Classes, m: Message, limit: int)
    requires GoodClasses(classes) && TooLong(m, limit)
    ensures Count(classes, RenderOne(TrimOne(m, limit))) <= Count(classes, RenderOne(m)) + 7
  {
    var h := Heading(m);
    CutCount(classes, h, m.content, limit);
    MarkerCount(classes, h + Cut(m.content, limit));
    assert RenderOne(TrimOne(m, limit)) == h + Cut(m.content, limit) + Str(MARKER) + Str("\n");
    assert RenderOne(m) == (h + m.content) + Str("\n");
    CountGrows(classes, h + m.content, Str("\n"));
  }

  function LongOnes(messages: seq<Message>, limit: int): nat {
    if messages == [] then 0
    else LongOnes(messages[..|messages| - 1], limit) + if TooLong(messages[|messages| - 1], limit) then 1 else 0
  }

  lemma {:induction false} TrimmedHistoryCostsAtMost(classes: Classes, messages: seq<Message>, limit: int)
    requires GoodClasses(classes)
    ensures TokensOf(classes, Trimmed(messages, limit)) <= TokensOf(classes, messages) + 7 * LongOnes(messages, limit)
    ensures LongOnes(messages, limit) == 0 ==> Trimmed(messages, limit) == messages
  {
    if messages == [] {
    } else {
      var n := |messages| - 1;
      TrimmedHistoryCostsAtMost(classes, messages[..n], limit);
      TrimmedOfMore(messages, limit);
      if TooLong(messages[n], limit) {
        TrimmingCostsAtMost(classes, messages[n], limit);
      }
    }
  }

  lemma TrimmedOfMore(messages: seq<Message>, limit: int)
    requires messages != []
    ensures var n := |messages| - 1;
      && Trimmed(messages, limit)[..n] == Trimmed(messages[..n], limit)
      && Trimmed(messages, limit)[n] == TrimOne(messages[n], limit)
      && (Trimmed(messages[..n], limit) == messages[..n] && !TooLong(messages[n], limit)
          ==> Trimmed(messages, limit) == messages)
  {
    var n := |messages| - 1;
    var out := Trimmed(messages, limit);
    assert out == out[..n] + [out[n]] && messages == messages[..n] + [messages[n]];
  }

  // ---- compressing a single text ----

  function AsHistory(text: Text, createdAt: int): seq<Message> {
    [Message(Str("system"), Str("context"), text, createdAt)]
  }

  lemma ContextIsNoToolResult()
    ensures Str("context") != Str("tool_result")
  {
    assert |Str("context")| != |Str("tool_result")|;
  }

  /**
    A text is one message, so protecting any message protects it all: the result counts as
    compressed exactly when nothing is protected, the text is over the limit, and the summary, if
    one is made, is cheaper than the text.
   */
  lemma CompressesTextExactly(classes: Classes, cfg: Config, text: Text, at: int, now: int)
    requires GoodClasses(classes)
    ensures var before := TokensOf(classes, AsHistory(text, at));
      match CompressHistory(classes, DefaultCounter(classes), cfg, AsHistory(text, at), now)
      case Cancelled => false
      case SummaryFailed => cfg.summarizer.Some?
      case Compressed(_, r) =>
        r.after < r.before <==>
          && 0 < cfg.limit < before && cfg.head == 0 && cfg.tail == 0
          && match cfg.summarizer
             case None => true
             case Some(ask) =>
               var answer := ask(Str(INSTRUCTION) + Render(AsHistory(text, at)));
               answer.Some? && 5 + Count(classes, answer.value) < before
  {
    var messages := AsHistory(text, at);
    ContextIsNoToolResult();
    ExactAccounting(classes, cfg, messages, now);
    assert Trimmed(messages, cfg.toolMax) == messages;
    var p := Split(messages, cfg.head, cfg.tail);
    if cfg.head == 0 && cfg.tail == 0 {
      assert p.middle == messages;
    } else {
      assert p.middle == [];
    }
  }

  // ---- with the default configuration ----

  /** Two messages protected at either end, whatever the summarising model. */
  function DefaultConfig(summarizer: Option<Summarizer>): Config { NewConfig(8000, 2, 2, 4000, summarizer) }

  /** No text counts as compressed, however long and whatever the model answers. */
  lemma DefaultNeverCompresses(classes: Classes, summarizer: Option<Summarizer>, text: Text, at: int, now: int)
    requires GoodClasses(classes)
    ensures match CompressHistory(classes, DefaultCounter(classes), DefaultConfig(summarizer), AsHistory(text, at), now)
      case Cancelled => false
      case SummaryFailed => summarizer.Some?
      case Compressed(_, r) => r.before <= r.after
  {
    CompressesTextExactly(classes, DefaultConfig(summarizer), text, at, now);
  }

  function Letters(n: nat): Text { seq(n, i requires 0 <= i < n => Char('a')) }

  lemma ContextRendered(text: Text, at: int)
    ensures RenderOne(AsHistory(text, at)[0])
            == Str("system:") + [Char(' ')] + (Str("[context]") + [Char(' ')] + (text + Str("\n")))
  {
    assert Str("system") + Str(": ") == Str("system:") + [Char(' ')];
    assert Str("[") + Str("context") + Str("] ") == Str("[context]") + [Char(' ')];
  }

  lemma ContextCost(classes: Classes, text: Text, at: int)
    requires GoodClasses(classes)
    ensures TokensOf(classes, AsHistory(text, at)) == 5 + Count(classes, text)
  {
    var rest := text + Str("\n");
    assert AsHistory(text, at)[..0] == [];
    ContextRendered(text, at);
    WordThenSpace(classes, "system:", ' ', Str("[context]") + [Char(' ')] + rest);
    WordThenSpace(classes, "[context]", ' ', rest);
    assert Str("\n") == [Char('\n')];
    SpaceAlone(classes, Char('\n'));
    CleanSeam(classes, text, Str("\n"));
  }

  /** Thirty-two thousand letters: five tokens over the limit, trimmed and protected, and as long as before. */
  lemma OverLimitByDefault(classes: Classes, at: int, now: int)
    requires GoodClasses(classes)
    ensures var messages := AsHistory(Letters(32000), at);
      var result := CompressHistory(classes, DefaultCounter(classes), DefaultConfig(None), messages, now);
      && result.Compressed? && result.report.strategy == TrimProtect
      && result.report.before == result.report.after == 8005 && result.messages == messages
  {
    var text := Letters(32000);
    forall p | p in text ensures ClassOf(classes, p) == Other {
    }
    CountOfOthers(classes, text);
    ContextCost(classes, text, at);
    OverLimitKeepsAll(classes, text, at, now);
  }

  lemma OverLimitKeepsAll(classes: Classes, text: Text, at: int, now: int)
    requires GoodClasses(classes) && TokensOf(classes, AsHistory(text, at)) > 8000
    ensures var messages := AsHistory(text, at);
      var result := CompressHistory(classes, DefaultCounter(classes), DefaultConfig(None), messages, now);
      && result.Compressed? && result.report.strategy == TrimProtect && result.messages == messages
      && result.report.before == result.report.after == TokensOf(classes, messages)
  {
    var messages := AsHistory(text, at);
    ContextIsNoToolResult();
    RenderedCountsAddUp(classes, messages);
    assert Trimmed(messages, 4000) == messages;
    var p := Split(messages, 2, 2);
    assert p.head == messages && p.tail == [];
    assert p.head + p.tail == messages;
  }
}
