/** The streaming loop itself: nested loops over a map of accumulators and an order of indices. */
module Assembly {
  import opened Options
  import opened AssemblySpec

  class ToolAccum {
    var call: Call

    constructor ()
      ensures call == Call("", "", "")
    {
      call := Call("", "", "");
    }

    /** Id and name where the fragment has them; its piece of the arguments in any case. */
    method Merge(f: Fragment)
      modifies this
      ensures call == Merged(old(call), f)
    {
      if f.id != "" {
        call := call.(id := f.id);
      }
      if f.name != "" {
        call := call.(name := f.name);
      }
      call := call.(args := call.args + f.args);
    }
  }

  /** The fold's variables: accumulators shared by reference through the map, and the order. */
  class Accumulator {
    var toolByIndex: map<int, ToolAccum>
    var order: seq<int>
    ghost var Model: Acc

    ghost predicate Valid()
      reads this, toolByIndex.Values
    {
      && order == Model.order
      && toolByIndex.Keys == Model.byIndex.Keys
      && (forall i | i in toolByIndex :: toolByIndex[i].call == Model.byIndex[i])
      && (forall i, j | i in toolByIndex && j in toolByIndex && i != j :: toolByIndex[i] != toolByIndex[j])
      && (forall i | i in order :: i in toolByIndex)
    }

    constructor ()
      ensures Valid() && Model == EMPTY && toolByIndex == map[]
    {
      toolByIndex, order, Model := map[], [], EMPTY;
    }

    method Add(f: Fragment)
      requires Valid()
      modifies this, toolByIndex.Values
      ensures Valid() && fresh(toolByIndex.Values - old(toolByIndex.Values))
      ensures Model == AddFragment(old(Model), f)
    {
      var acc: ToolAccum;
      if f.index in toolByIndex {
        acc := toolByIndex[f.index];
      } else {
        acc := new ToolAccum();
        toolByIndex := toolByIndex[f.index := acc];
        order := order + [f.index];
      }
      acc.Merge(f);
      Model := AddFragment(Model, f);
    }

    method Assembled() returns (calls: seq<Call>)
      requires Valid()
      ensures forall i | i in Model.order :: i in Model.byIndex
      ensures calls == CallsInOrder(Model, Model.order)
    {
      calls := [];
      for k := 0 to |order|
        invariant forall j | 0 <= j < k :: order[j] in Model.byIndex
        invariant calls == CallsInOrder(Model, order[..k])
      {
        assert order[..k + 1] == order[..k] + [order[k]] && order[..k + 1][..k] == order[..k];
        var i := order[k];
        assert i in order;
        calls := calls + [toolByIndex[i].call];
      }
      assert order[..|order|] == order;
    }
  }

  /** All calls in order; or none, and the arguments of the first that cannot be decoded. */
  method ToolCalls(env: Env, calls: seq<Call>) returns (r: Option<seq<ToolCall>>, undecoded: Option<string>)
    ensures r == ParseCalls(env, calls)
    ensures r.Some? ==> undecoded.None?
    ensures r.None? ==>
              exists k | 0 <= k < |calls| :: ParseCall(env, calls[k]).None? && undecoded == Some(calls[k].args)
                && forall j | 0 <= j < k :: ParseCall(env, calls[j]).Some?
  {
    var out: seq<ToolCall> := [];
    for k := 0 to |calls|
      invariant ParseCalls(env, calls[..k]) == Some(out)
      invariant forall j | 0 <= j < k :: ParseCall(env, calls[j]).Some?
    {
      assert calls[..k + 1][..k] == calls[..k];
      var c := ParseCall(env, calls[k]);
      if c.None? {
        FailureStays(env, calls, k + 1);
        return None, Some(calls[k].args);
      }
      out := out + [c.value];
    }
    assert calls[..|calls|] == calls;
    return Some(out), None;
  }

  lemma {:induction false} FailureStays(env: Env, calls: seq<Call>, k: nat)
    requires k <= |calls| && ParseCalls(env, calls[..k]).None?
    ensures ParseCalls(env, calls).None?
  {
    if k == |calls| {
      assert calls[..k] == calls;
    } else {
      var init := calls[..|calls| - 1];
      assert init[..k] == calls[..k];
      FailureStays(env, init, k);
    }
  }

  lemma FoldOfNext(before: seq<Fragment>, fs: seq<Fragment>, k: nat)
    requires k < |fs|
    ensures Fold(before + fs[..k + 1]) == AddFragment(Fold(before + fs[..k]), fs[k])
  {
    assert before + fs[..k + 1] == (before + fs[..k]) + [fs[k]];
    assert (before + fs[..k + 1])[..|before| + k] == before + fs[..k];
  }

  lemma NextDelta(ds: seq<Delta>, choices: seq<Delta>, k: nat)
    requires k < |choices|
    ensures ds + choices[..k + 1] == (ds + choices[..k]) + [choices[k]]
  {
  }

  lemma ConcatOfNext(emitted: seq<string>, d: string)
    ensures Concat(emitted + [d]) == Concat(emitted) + d
  {
    assert (emitted + [d])[..|emitted|] == emitted;
  }

  /** What the loop has put together so far. */
  class Progress {
    var text: string
    var reasoning: string
    const acc: Accumulator
    var emitted: seq<string>     // what onDelta was called with

    constructor ()
      ensures text == reasoning == "" && emitted == []
      ensures fresh(acc) && acc.Valid() && acc.Model == EMPTY && acc.toolByIndex == map[]
    {
      text, reasoning, emitted := "", "", [];
      acc := new Accumulator();
    }

    ghost predicate Valid(ds: seq<Delta>)
      reads this, acc, acc.toolByIndex.Values
    {
      && acc.Valid()
      && text == ContentOf(ds) == Concat(emitted)
      && (forall d | d in emitted :: d != "")
      && reasoning == ReasoningOf(ds)
      && acc.Model == Fold(FragmentsOf(ds))
    }

    method Take(d: Delta, ghost ds: seq<Delta>)
      requires Valid(ds)
      modifies this, acc, acc.toolByIndex.Values
      ensures Valid(ds + [d]) && fresh(acc.toolByIndex.Values - old(acc.toolByIndex.Values))
    {
      DeltasOfNext(ds, d);
      TakeText(d.content);
      if d.reasoning != "" {
        reasoning := reasoning + d.reasoning;
      }
      TakeFragments(d.fragments, FragmentsOf(ds));
    }

    /** Empty increments are neither added nor handed on. */
    method TakeText(content: string)
      modifies this`text, this`emitted
      ensures text == old(text) + content && Concat(emitted) == Concat(old(emitted)) + content
      ensures (forall d | d in old(emitted) :: d != "") ==> (forall d | d in emitted :: d != "")
    {
      if content != "" {
        text := text + content;
        ConcatOfNext(emitted, content);
        emitted := emitted + [content];
      }
    }

    method TakeChoices(choices: seq<Delta>, ghost ds: seq<Delta>)
      requires Valid(ds)
      modifies this, acc, acc.toolByIndex.Values
      ensures Valid(ds + choices) && fresh(acc.toolByIndex.Values - old(acc.toolByIndex.Values))
    {
      assert ds + choices[..0] == ds;
      for k := 0 to |choices|
        invariant Valid(ds + choices[..k])
        invariant fresh(acc.toolByIndex.Values - old(acc.toolByIndex.Values))
      {
        NextDelta(ds, choices, k);
        Take(choices[k], ds + choices[..k]);
      }
      assert choices[..|choices|] == choices;
    }

    method TakeFragments(fs: seq<Fragment>, ghost before: seq<Fragment>)
      requires acc.Valid() && acc.Model == Fold(before)
      modifies acc, acc.toolByIndex.Values
      ensures acc.Valid() && acc.Model == Fold(before + fs)
      ensures fresh(acc.toolByIndex.Values - old(acc.toolByIndex.Values))
    {
      assert before + fs[..0] == before;
      for k := 0 to |fs|
        invariant acc.Valid() && acc.Model == Fold(before + fs[..k])
        invariant fresh(acc.toolByIndex.Values - old(acc.toolByIndex.Values))
      {
        FoldOfNext(before, fs, k);
        acc.Add(fs[k]);
      }
      assert fs[..|fs|] == fs;
    }
  }

  /** Reads the chunks in order; the increments handed to onDelta are the text, piece by piece. */
  method GenerateStream(env: Env, chunks: seq<Chunk>) returns (r: Option<Response>, emitted: seq<string>)
    ensures r == Streamed(env, chunks)
    ensures Concat(emitted) == ContentOf(DeltasOf(chunks)) && forall d | d in emitted :: d != ""
    ensures r.Some? ==> r.value.text == Concat(emitted)
  {
    var progress := new Progress();
    var usage: Option<Usage> := None;
    ghost var ds: seq<Delta> := [];
    for c := 0 to |chunks|
      invariant fresh(progress) && fresh(progress.acc) && fresh(progress.acc.toolByIndex.Values)
      invariant ds == DeltasOf(chunks[..c]) && progress.Valid(ds)
      invariant usage == LastUsage(chunks[..c])
    {
      assert chunks[..c + 1][..c] == chunks[..c];
      if chunks[c].usage.Some? {
        usage := chunks[c].usage;
      }
      progress.TakeChoices(chunks[c].choices, ds);
      ds := ds + chunks[c].choices;
    }
    assert chunks[..|chunks|] == chunks;
    var calls := progress.acc.Assembled();
    var parsed, undecoded := ToolCalls(env, calls);
    emitted := progress.emitted;
    if parsed.None? {
      return None, emitted;
    }
    r := Some(Response(progress.text, progress.reasoning, parsed.value,
                       if usage.Some? then usage.value else NO_USAGE));
  }
}
