/** The compressor with the default counter, as its methods run. */
module Compressor {
  import opened Options
  import opened Tokens
  import opened HistorySpec

  lemma Appends(b: Text, x: Text, y: Text)
    ensures (b + x) + y == b + (x + y)
    ensures b + [] == b && [] + x == x
  {
  }

  /** Writes one message to the builder, piece by piece. */
  method WriteMessage(before: Text, m: Message) returns (b: Text)
    ensures b == before + RenderOne(m)
  {
    b := before;
    ghost var role := if m.role != [] then m.role + Str(": ") else [];
    ghost var kind := if m.kind != [] then Str("[") + m.kind + Str("] ") else [];
    Appends(before, m.role, Str(": "));
    if m.role != [] {
      b := b + m.role;
      b := b + Str(": ");
    }
    assert b == before + role;
    ghost var headed := b;
    Appends(headed, Str("["), m.kind);
    Appends(headed, Str("[") + m.kind, Str("] "));
    if m.kind != [] {
      b := b + Str("[");
      b := b + m.kind;
      b := b + Str("] ");
    }
    assert b == headed + kind;
    b := b + m.content;
    b := b + Str("\n");
    Appends(before, role, kind);
    Appends(before, role + kind, m.content);
    Appends(before, role + kind + m.content, Str("\n"));
  }

  method RenderMessages(messages: seq<Message>) returns (b: Text)
    ensures b == Render(messages)
  {
    b := [];
    for i := 0 to |messages|
      invariant b == Render(messages[..i])
    {
      assert messages[..i + 1][..i] == messages[..i];
      b := WriteMessage(b, messages[i]);
    }
    assert messages[..|messages|] == messages;
  }

  /** In place, and reports whether any result was over the limit, changed by the cut or not. */
  method TrimToolResults(messages: array<Message>, limit: int) returns (trimmed: bool)
    modifies messages
    ensures messages[..] == Trimmed(old(messages[..]), limit)
    ensures trimmed <==> exists m | m in old(messages[..]) :: TooLong(m, limit)
  {
    trimmed := false;
    ghost var was := messages[..];
    if limit > 0 {
      for i := 0 to messages.Length
        invariant forall k | 0 <= k < i :: messages[k] == TrimOne(was[k], limit)
        invariant forall k | i <= k < messages.Length :: messages[k] == was[k]
        invariant trimmed <==> exists k | 0 <= k < i :: TooLong(was[k], limit)
      {
        var m := messages[i];
        if m.kind == Str("tool_result") && Bytes(m.content) > limit {
          messages[i] := m.(content := Cut(m.content, limit) + Str(MARKER));
          trimmed := true;
        }
      }
    }
    assert forall m | m in was :: exists k | 0 <= k < |was| :: was[k] == m;
  }

  /** Clamps both counts, the tail's to what the head leaves over. */
  method SplitProtected(messages: seq<Message>, headCount: nat, tailCount: nat)
    returns (head: seq<Message>, middle: seq<Message>, tail: seq<Message>)
    ensures Parts(head, middle, tail) == Split(messages, headCount, tailCount)
  {
    var h, t := headCount, tailCount;
    if h > |messages| {
      h := |messages|;
    }
    var remaining := |messages| - h;
    if t > remaining {
      t := remaining;
    }
    head := messages[..h];
    middle := messages[h..|messages| - t];
    tail := messages[|messages| - t..];
  }

  class ContextCompressor {
    const cfg: Config
    const classes: Classes

    constructor (classes: Classes, limit: int, head: int, tail: int, toolMax: int, summarizer: Option<Summarizer>)
      ensures cfg == NewConfig(limit, head, tail, toolMax, summarizer) && this.classes == classes
    {
      this.classes := classes;
      cfg := Config(limit, if head < 0 then 0 else head, if tail < 0 then 0 else tail, toolMax, summarizer);
    }

    method CountHistory(messages: seq<Message>) returns (n: nat)
      ensures n == Count(classes, Render(messages))
    {
      var text := RenderMessages(messages);
      n := CountTokens(classes, text);
    }

    method Summarize(ask: Summarizer, middle: seq<Message>) returns (summary: Option<Text>)
      ensures summary == Ask(classes, ask, middle)
    {
      var text := RenderMessages(middle);
      var answer := ask(Str(INSTRUCTION) + text);
      if answer.None? {
        return None;
      }
      return Some(Trim(classes, answer.value));
    }

    /** The caller's messages are copied first; it is the copy that is trimmed. */
    method TrimmedCopy(history: seq<Message>) returns (messages: seq<Message>, trimmed: bool)
      ensures messages == Trimmed(history, cfg.toolMax)
      ensures trimmed <==> exists m | m in history :: TooLong(m, cfg.toolMax)
    {
      var copied := new Message[|history|](i requires 0 <= i < |history| => history[i]);
      assert copied[..] == history;
      trimmed := TrimToolResults(copied, cfg.toolMax);
      messages := copied[..];
    }

    method Reduce(messages: seq<Message>, done: seq<int>, before: int, now: int) returns (result: Result)
      ensures result == HistorySpec.Reduce(classes, DefaultCounter(classes), cfg, messages, done, before, now)
    {
      var head, middle, tail := SplitProtected(messages, cfg.head, cfg.tail);
      if cfg.summarizer.None? {
        var after := CountHistory(head + tail);
        return Compressed(head + tail, Report(TrimProtect, done, before, after, []));
      }
      var summary := Summarize(cfg.summarizer.value, middle);
      if summary.None? {
        return SummaryFailed;
      }
      var compressed := head + [SummaryMessage(summary.value, now)] + tail;
      var after := CountHistory(compressed);
      return Compressed(compressed, Report(FourLayer, done + [3], before, after, summary.value));
    }

    method CompressHistory(cancelled: bool, history: seq<Message>, now: int) returns (result: Result)
      ensures cancelled ==> result == Cancelled
      ensures !cancelled ==> result == HistorySpec.CompressHistory(classes, DefaultCounter(classes), cfg, history, now)
    {
      if cancelled {
        return Cancelled;
      }
      var before := CountHistory(history);
      if cfg.limit <= 0 || before <= cfg.limit {
        return Compressed(history, Report(NoCompression, [], before, before, []));
      }
      var layers := [];
      var messages, trimmed := TrimmedCopy(history);
      if trimmed {
        layers := layers + [1];
      }
      layers := layers + [2];
      assert layers == if trimmed then [1, 2] else [2];
      result := Reduce(messages, layers, before, now);
    }
  }
}
