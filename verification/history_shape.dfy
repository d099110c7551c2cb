/** What a compressed history looks like, message by message, and what the model is asked. */
module HistoryShape {
  import opened Options
  import opened Tokens
  import opened HistorySpec

  /** The words that are put in: behind a cut tool result, and in front of what is to be summarised. */
  lemma Wording()
    ensures MARKER == "\n[tool_result_trimmed]"
    ensures INSTRUCTION == "Summarize middle context for continued task execution.\n\n"
  {
  }

  /** Sizes are those of the UTF-8 encoding: up to U+007F one byte, U+07FF two, U+FFFF three, else four. */
  lemma WidthExactly(c: char)
    ensures Width(Char(c)) == 1 <==> c as int <= 0x7F
    ensures Width(Char(c)) == 2 <==> 0x80 <= c as int <= 0x7FF
    ensures Width(Char(c)) == 3 <==> 0x800 <= c as int <= 0xFFFF
    ensures Width(Char(c)) == 4 <==> 0x1_0000 <= c as int
    ensures Width(Stray) == 1
  {
  }

  /** The same message, but for the content of a tool result that was over the limit: that is cut and marked. */
  predicate KeptAs(was: Message, now: Message, limit: int) {
    && now.role == was.role && now.kind == was.kind && now.createdAt == was.createdAt
    && now.content ==
       if limit > 0 && was.kind == Str("tool_result") && Bytes(was.content) > limit
       then Cut(was.content, limit) + Str(MARKER)
       else was.content
  }

  predicate AllKeptAs(was: seq<Message>, now: seq<Message>, limit: int) {
    |now| == |was| && forall i | 0 <= i < |was| :: KeptAs(was[i], now[i], limit)
  }

  lemma TrimmedIsKept(messages: seq<Message>, limit: int)
    ensures AllKeptAs(messages, Trimmed(messages, limit), limit)
  {
  }

  /** How many messages of n are protected at the start, and how many of those left over at the end. */
  function AtStart(cfg: Config, n: nat): (h: nat)
    ensures h <= n
  {
    if cfg.head < n then cfg.head else n
  }

  function AtEnd(cfg: Config, n: nat): (t: nat)
    ensures AtStart(cfg, n) + t <= n
  {
    if cfg.tail < n - AtStart(cfg, n) then cfg.tail else n - AtStart(cfg, n)
  }

  lemma PartsByIndex(cfg: Config, messages: seq<Message>)
    ensures var h, t := AtStart(cfg, |messages|), AtEnd(cfg, |messages|);
      var p := Split(Trimmed(messages, cfg.toolMax), cfg.head, cfg.tail);
      && AllKeptAs(messages[..h], p.head, cfg.toolMax)
      && AllKeptAs(messages[h..|messages| - t], p.middle, cfg.toolMax)
      && AllKeptAs(messages[|messages| - t..], p.tail, cfg.toolMax)
  {
    TrimmedIsKept(messages, cfg.toolMax);
    var h, t := AtStart(cfg, |messages|), AtEnd(cfg, |messages|);
    var all := Trimmed(messages, cfg.toolMax);
    var p := Split(all, cfg.head, cfg.tail);
    assert p.head == all[..h] && p.middle == all[h..|all| - t] && p.tail == all[|all| - t..];
  }

  /** The message that stands for the middle. */
  predicate IsSummary(m: Message, summary: Text, now: int) {
    m.role == Str("system") && m.kind == Str("summary") && m.content == summary && m.createdAt == now
  }

  /** The model's answer to the instruction followed by these messages, as cut, written out in order. */
  ghost predicate Asked(ask: Summarizer, cfg: Config, middle: seq<Message>, answer: Option<Text>) {
    exists kept :: AllKeptAs(middle, kept, cfg.toolMax)
      && ask(Str(INSTRUCTION) + Render(kept)) == answer
  }

  lemma KeptIsOne(was: seq<Message>, a: seq<Message>, b: seq<Message>, limit: int)
    requires AllKeptAs(was, a, limit) && AllKeptAs(was, b, limit)
    ensures a == b
  {
    forall i | 0 <= i < |was| ensures a[i] == b[i] {
      assert KeptAs(was[i], a[i], limit) && KeptAs(was[i], b[i], limit);
    }
  }

  lemma AskedAbout(ask: Summarizer, cfg: Config, middle: seq<Message>, kept: seq<Message>)
    requires AllKeptAs(middle, kept, cfg.toolMax)
    ensures Asked(ask, cfg, middle, ask(Str(INSTRUCTION) + Render(kept)))
  {
  }

  /** There is one answer, as there is one way to cut the messages. */
  lemma AnsweredOnce(ask: Summarizer, cfg: Config, middle: seq<Message>, a: Option<Text>, b: Option<Text>)
    requires Asked(ask, cfg, middle, a) && Asked(ask, cfg, middle, b)
    ensures a == b
  {
    var k :| AllKeptAs(middle, k, cfg.toolMax) && ask(Str(INSTRUCTION) + Render(k)) == a;
    var l :| AllKeptAs(middle, l, cfg.toolMax) && ask(Str(INSTRUCTION) + Render(l)) == b;
    KeptIsOne(middle, k, l, cfg.toolMax);
  }

  /** No summariser: start and end. */
  lemma ReducedWithout(classes: Classes, count: Counter, cfg: Config, messages: seq<Message>,
                       layers: seq<int>, before: int, now: int)
    requires cfg.summarizer.None?
    ensures var h, t := AtStart(cfg, |messages|), AtEnd(cfg, |messages|);
      var result := Reduce(classes, count, cfg, Trimmed(messages, cfg.toolMax), layers, before, now);
      && result.Compressed? && |result.messages| == h + t
      && AllKeptAs(messages[..h], result.messages[..h], cfg.toolMax)
      && AllKeptAs(messages[|messages| - t..], result.messages[h..], cfg.toolMax)
      && result.report == Report(TrimProtect, layers, before, count(Render(result.messages)), [])
  {
    PartsByIndex(cfg, messages);
    var p := Split(Trimmed(messages, cfg.toolMax), cfg.head, cfg.tail);
    assert (p.head + p.tail)[..|p.head|] == p.head && (p.head + p.tail)[|p.head|..] == p.tail;
  }

  /** With one: its trimmed answer between start and end, or no result if it has none. */
  lemma ReducedWith(classes: Classes, count: Counter, cfg: Config, messages: seq<Message>,
                    layers: seq<int>, before: int, now: int) returns (answer: Option<Text>)
    requires cfg.summarizer.Some?
    ensures Asked(cfg.summarizer.value, cfg, Between(cfg, messages), answer)
    ensures var h, t := AtStart(cfg, |messages|), AtEnd(cfg, |messages|);
      var result := Reduce(classes, count, cfg, Trimmed(messages, cfg.toolMax), layers, before, now);
      if answer.None? then result == SummaryFailed
      else
        && result.Compressed? && |result.messages| == h + 1 + t
        && AllKeptAs(messages[..h], result.messages[..h], cfg.toolMax)
        && AllKeptAs(messages[|messages| - t..], result.messages[h + 1..], cfg.toolMax)
        && IsSummary(result.messages[h], Trim(classes, answer.value), now)
        && result.report == Report(FourLayer, layers + [3], before, count(Render(result.messages)),
                                   Trim(classes, answer.value))
  {
    PartsByIndex(cfg, messages);
    var p := Split(Trimmed(messages, cfg.toolMax), cfg.head, cfg.tail);
    answer := cfg.summarizer.value(Str(INSTRUCTION) + Render(p.middle));
    AskedAbout(cfg.summarizer.value, cfg, Between(cfg, messages), p.middle);
    if answer.Some? {
      SummaryBetween(p, SummaryMessage(Trim(classes, answer.value), now));
    }
  }

  lemma SummaryBetween(p: Parts, m: Message)
    ensures var out := p.head + [m] + p.tail;
      out[..|p.head|] == p.head && out[|p.head|] == m && out[|p.head| + 1..] == p.tail
  {
  }

  /** The messages that are neither protected at the start nor at the end. */
  function Between(cfg: Config, messages: seq<Message>): seq<Message> {
    messages[AtStart(cfg, |messages|)..|messages| - AtEnd(cfg, |messages|)]
  }

  /** What is done over the limit, the layers that took part, and the two counts. */
  lemma OverLimit(classes: Classes, count: Counter, cfg: Config, messages: seq<Message>, now: int)
    requires 0 < cfg.limit < count(Render(messages))
    ensures CompressHistory(classes, count, cfg, messages, now)
            == Reduce(classes, count, cfg, Trimmed(messages, cfg.toolMax), LayersOf(cfg, messages),
                      count(Render(messages)), now)
  {
  }

  /** Layer one if a tool result was over its own limit, and layer two. */
  function LayersOf(cfg: Config, messages: seq<Message>): seq<int> {
    if exists m | m in messages :: cfg.toolMax > 0 && m.kind == Str("tool_result") && Bytes(m.content) > cfg.toolMax
    then [1, 2] else [2]
  }

  /**
    Over the limit, whatever counts: the protected start, then nothing or the one summary, then the
    protected end, each message in its old place in the order and as cutting leaves it. The model is
    asked about just the messages in between, as cut, and its trimmed answer is the summary.
   */
  lemma CompressedExactly(classes: Classes, count: Counter, cfg: Config, messages: seq<Message>, now: int)
    requires 0 < cfg.limit < count(Render(messages))
    ensures var h, t := AtStart(cfg, |messages|), AtEnd(cfg, |messages|);
      var result := CompressHistory(classes, count, cfg, messages, now);
      && (result.SummaryFailed? <==>
            cfg.summarizer.Some? && Asked(cfg.summarizer.value, cfg, Between(cfg, messages), None))
      && (result.SummaryFailed? || result.Compressed?)
      && (result.Compressed? ==>
            var out, r := result.messages, result.report;
            && |out| == h + (if cfg.summarizer.Some? then 1 else 0) + t
            && AllKeptAs(messages[..h], out[..h], cfg.toolMax)
            && AllKeptAs(messages[|messages| - t..], out[|out| - t..], cfg.toolMax)
            && r.before == count(Render(messages)) && r.after == count(Render(out))
            && (cfg.summarizer.None? ==>
                  r.strategy == TrimProtect && r.summary == [] && r.layers == LayersOf(cfg, messages))
            && (cfg.summarizer.Some? ==>
                  && IsSummary(out[h], r.summary, now)
                  && r.strategy == FourLayer && r.layers == LayersOf(cfg, messages) + [3]
                  && exists answer :: Asked(cfg.summarizer.value, cfg, Between(cfg, messages), Some(answer))
                                      && r.summary == Trim(classes, answer)))
  {
    OverLimit(classes, count, cfg, messages, now);
    if cfg.summarizer.None? {
      ReducedWithout(classes, count, cfg, messages, LayersOf(cfg, messages), count(Render(messages)), now);
    } else {
      var answer := ReducedWith(classes, count, cfg, messages, LayersOf(cfg, messages), count(Render(messages)), now);
      if answer.Some? && Asked(cfg.summarizer.value, cfg, Between(cfg, messages), None) {
        AnsweredOnce(cfg.summarizer.value, cfg, Between(cfg, messages), answer, None);
      }
    }
  }

  /** Within the limit, or with no limit set, nothing is done at all. */
  lemma UncompressedExactly(classes: Classes, count: Counter, cfg: Config, messages: seq<Message>, now: int)
    requires cfg.limit <= 0 || count(Render(messages)) <= cfg.limit
    ensures CompressHistory(classes, count, cfg, messages, now) ==
            Compressed(messages, Report(NoCompression, [], count(Render(messages)), count(Render(messages)), []))
  {
  }

  // ---- how messages are written out ----

  /** One after the other, in order. */
  lemma {:induction false} RenderInOrder(a: seq<Message>, b: seq<Message>)
    ensures Render(a + b) == Render(a) + Render(b)
  {
    if b == [] {
      assert a + b == a;
    } else {
      var n := |b| - 1;
      var last := RenderOne(b[n]);
      RenderInOrder(a, b[..n]);
      assert (a + b)[..|a + b| - 1] == a + b[..n] && (a + b)[|a + b| - 1] == b[n];
      assert Render(a + b[..n]) + last == Render(a) + (Render(b[..n]) + last);
    }
  }

  /** Role and kind in front where there are any, and a line feed behind. */
  lemma RenderedLine(m: Message)
    ensures m.role != [] && m.kind != [] ==>
              Render([m]) == m.role + Str(": [") + m.kind + Str("] ") + m.content + Str("\n")
    ensures m.role != [] && m.kind == [] ==> Render([m]) == m.role + Str(": ") + m.content + Str("\n")
    ensures m.role == [] && m.kind != [] ==> Render([m]) == Str("[") + m.kind + Str("] ") + m.content + Str("\n")
    ensures m.role == [] && m.kind == [] ==> Render([m]) == m.content + Str("\n")
  {
    assert [m][..0] == [];
    assert Str(": [") == Str(": ") + Str("[");
  }
}
