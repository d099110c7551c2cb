/**
  Learning events carried as runtime events: one line of key=value fields, split at white space on
  the way back. What counts as white space is a parameter.
 */
module Learning {
  import opened Options

  type Spaces = char -> bool

  const KEYS := ["agent_id", "signal", "reason", "episodic_ref", "lightweight"]

  /** A blank is white space; what the line is built of otherwise is not. */
  ghost predicate GoodSpaces(space: Spaces) {
    space(' ') && forall c | c in "agent_id=signal=reason=episodic_ref=lightweight=true=false" :: !space(c)
  }

  const ZERO_TIME: int := 0

  const LEARNING := "learning_event"

  datatype LearningEvent = LearningEvent(
    agentID: string, taskID: string, signal: string, reason: string, episodicRef: string,
    lightweight: bool, publishedAt: int)

  const NO_EVENT := LearningEvent("", "", "", "", "", false, ZERO_TIME)

  datatype RuntimeEvent = RuntimeEvent(kind: string, taskID: string, message: string, createdAt: int)

  function PrintBool(b: bool): string { if b then "true" else "false" }

  function Field(key: string, value: string): string { key + "=" + value }

  function Print(e: LearningEvent, now: int): RuntimeEvent {
    RuntimeEvent(
      LEARNING, e.taskID,
      Field("agent_id", e.agentID) + " " + (Field("signal", e.signal) + " " + (Field("reason", e.reason) + " "
        + (Field("episodic_ref", e.episodicRef) + " " + Field("lightweight", PrintBool(e.lightweight))))),
      if e.publishedAt == ZERO_TIME then now else e.publishedAt)
  }

  // ---- reading back ----

  function Word(space: Spaces, s: string): (n: nat)
    ensures n <= |s|
    ensures forall i | 0 <= i < n :: !space(s[i])
    ensures n < |s| ==> space(s[n])
  {
    if s == [] || space(s[0]) then 0 else 1 + Word(space, s[1..])
  }

  /** The words between white space. */
  function Fields(space: Spaces, s: string): seq<string> {
    if s == [] then []
    else if space(s[0]) then Fields(space, s[1..])
    else [s[..Word(space, s)]] + Fields(space, s[Word(space, s)..])
  }

  /** Key and value around the first equals sign. */
  function CutPair(part: string): Option<(string, string)> {
    if part == [] then None
    else if part[0] == '=' then Some(("", part[1..]))
    else match CutPair(part[1..])
      case None => None
      case Some(kv) => Some(([part[0]] + kv.0, kv.1))
  }

  /** A later field overrides an earlier one of the same key; a word without an equals sign is skipped. */
  function FieldMap(parts: seq<string>): map<string, string> {
    if parts == [] then map[]
    else
      var before := FieldMap(parts[..|parts| - 1]);
      match CutPair(parts[|parts| - 1])
      case None => before
      case Some(kv) => before[kv.0 := kv.1]
  }

  function Get(fields: map<string, string>, key: string): string {
    if key in fields then fields[key] else ""
  }

  function ParseBool(s: string): Option<bool> {
    if s in {"1", "t", "T", "true", "TRUE", "True"} then Some(true)
    else if s in {"0", "f", "F", "false", "FALSE", "False"} then Some(false)
    else None
  }

  function Parse(space: Spaces, r: RuntimeEvent): (LearningEvent, bool) {
    if r.kind != LEARNING then (NO_EVENT, false)
    else
      var fields := FieldMap(Fields(space, r.message));
      match ParseBool(Get(fields, "lightweight"))
      case None => (NO_EVENT, false)
      case Some(light) =>
        (LearningEvent(Get(fields, "agent_id"), r.taskID, Get(fields, "signal"), Get(fields, "reason"),
                       Get(fields, "episodic_ref"), light, r.createdAt),
         Get(fields, "signal") != "")
  }

  // ---- fields of a printed line ----

  predicate Solid(space: Spaces, s: string) { forall c | c in s :: !space(c) }

  lemma FirstField(space: Spaces, word: string, rest: string)
    requires GoodSpaces(space) && word != [] && Solid(space, word)
    ensures Fields(space, word + " " + rest) == [word] + Fields(space, rest)
  {
    var s := word + " " + rest;
    assert forall i | 0 <= i < |word| :: s[i] == word[i] && word[i] in word;
    assert s[|word|] == ' ';
    assert Word(space, s) == |word|;
    assert s[0] == word[0] && word[0] in word;
    assert s[..|word|] == word && s[|word|..] == " " + rest;
    assert (" " + rest)[1..] == rest;
  }

  lemma LastField(space: Spaces, word: string)
    requires word != [] && Solid(space, word)
    ensures Fields(space, word) == [word]
  {
    assert forall i | 0 <= i < |word| :: word[i] in word;
    assert Word(space, word) == |word|;
    assert word[..|word|] == word && word[|word|..] == [];
  }

  lemma {:induction false} CutAtFirst(key: string, value: string)
    requires '=' !in key
    ensures CutPair(Field(key, value)) == Some((key, value))
  {
    var part := Field(key, value);
    if key == [] {
      assert part[1..] == value;
    } else {
      assert key[0] in key;
      assert part[1..] == Field(key[1..], value);
      CutAtFirst(key[1..], value);
      assert [key[0]] + key[1..] == key;
    }
  }

  lemma {:induction false} CutIsSolid(space: Spaces, part: string)
    requires Solid(space, part)
    ensures CutPair(part).Some? ==> Solid(space, CutPair(part).value.1)
  {
    if part == [] {
    } else {
      assert forall c | c in part[1..] :: c in part;
      CutIsSolid(space, part[1..]);
    }
  }

  lemma {:induction false} FieldsAreSolid(space: Spaces, s: string)
    ensures forall part | part in Fields(space, s) :: Solid(space, part)
    decreases |s|
  {
    if s == [] {
    } else {
      if space(s[0]) {
        FieldsAreSolid(space, s[1..]);
      } else {
        FieldsAreSolid(space, s[Word(space, s)..]);
      }
    }
  }

  lemma {:induction false} ValuesAreSolid(space: Spaces, parts: seq<string>, key: string)
    requires forall part | part in parts :: Solid(space, part)
    ensures Solid(space, Get(FieldMap(parts), key))
  {
    if parts == [] {
    } else {
      var n := |parts| - 1;
      ValuesAreSolid(space, parts[..n], key);
      assert parts[n] in parts;
      CutIsSolid(space, parts[n]);
    }
  }

  // ---- the round trip ----

  /** What can be carried: one word each, and a signal. */
  predicate Carried(space: Spaces, e: LearningEvent) {
    && Solid(space, e.agentID) && Solid(space, e.signal) && Solid(space, e.reason) && Solid(space, e.episodicRef)
    && e.signal != "" && e.publishedAt != ZERO_TIME
  }

  lemma SolidField(space: Spaces, key: string, value: string)
    requires GoodSpaces(space) && key in KEYS && Solid(space, value)
    ensures Solid(space, Field(key, value)) && Field(key, value) != [] && '=' !in key
  {
  }

  function Parts(e: LearningEvent): seq<string> {
    [Field("agent_id", e.agentID), Field("signal", e.signal), Field("reason", e.reason),
     Field("episodic_ref", e.episodicRef), Field("lightweight", PrintBool(e.lightweight))]
  }

  predicate IsWord(space: Spaces, s: string) { s != [] && Solid(space, s) }

  lemma FiveFields(space: Spaces, a: string, s: string, r: string, x: string, l: string)
    requires GoodSpaces(space)
    requires IsWord(space, a) && IsWord(space, s) && IsWord(space, r) && IsWord(space, x) && IsWord(space, l)
    ensures Fields(space, a + " " + (s + " " + (r + " " + (x + " " + l)))) == [a, s, r, x, l]
  {
    LastField(space, l);
    FirstField(space, x, l);
    FirstField(space, r, x + " " + l);
    FirstField(space, s, r + " " + (x + " " + l));
    FirstField(space, a, s + " " + (r + " " + (x + " " + l)));
  }

  lemma FieldsOfPrinted(space: Spaces, e: LearningEvent, now: int)
    requires GoodSpaces(space) && Carried(space, e)
    ensures Fields(space, Print(e, now).message) == Parts(e)
  {
    SolidField(space, "agent_id", e.agentID);
    SolidField(space, "signal", e.signal);
    SolidField(space, "reason", e.reason);
    SolidField(space, "episodic_ref", e.episodicRef);
    SolidField(space, "lightweight", PrintBool(e.lightweight));
    FiveFields(space, Field("agent_id", e.agentID), Field("signal", e.signal), Field("reason", e.reason),
               Field("episodic_ref", e.episodicRef), Field("lightweight", PrintBool(e.lightweight)));
  }

  lemma MapOfParts(e: LearningEvent)
    ensures FieldMap(Parts(e)) == map["agent_id" := e.agentID, "signal" := e.signal, "reason" := e.reason,
                                      "episodic_ref" := e.episodicRef, "lightweight" := PrintBool(e.lightweight)]
  {
    var p := Parts(e);
    CutAtFirst("agent_id", e.agentID);
    CutAtFirst("signal", e.signal);
    CutAtFirst("reason", e.reason);
    CutAtFirst("episodic_ref", e.episodicRef);
    CutAtFirst("lightweight", PrintBool(e.lightweight));
    var p1, p2, p3, p4 := p[..1], p[..2], p[..3], p[..4];
    assert p1[..0] == [] && p2[..1] == p1 && p3[..2] == p2 && p4[..3] == p3 && p[..4] == p4;
    var m1 := map["agent_id" := e.agentID];
    assert FieldMap(p1) == m1;
    assert FieldMap(p2) == m1["signal" := e.signal];
    assert FieldMap(p3) == m1["signal" := e.signal]["reason" := e.reason];
    assert FieldMap(p4) == m1["signal" := e.signal]["reason" := e.reason]["episodic_ref" := e.episodicRef];
  }

  lemma CarriedComesBack(space: Spaces, e: LearningEvent, now: int)
    requires GoodSpaces(space) && Carried(space, e)
    ensures Parse(space, Print(e, now)) == (e, true)
  {
    FieldsOfPrinted(space, e, now);
    MapOfParts(e);
    assert ParseBool(PrintBool(e.lightweight)) == Some(e.lightweight);
  }

  /** Whatever is read back accepted can be carried, but for its time. */
  lemma ParsedIsSolid(space: Spaces, r: RuntimeEvent)
    ensures var p := Parse(space, r);
      p.1 ==> Carried(space, p.0.(publishedAt := 1)) && p.0.publishedAt == r.createdAt
  {
    if r.kind == LEARNING {
      var parts := Fields(space, r.message);
      FieldsAreSolid(space, r.message);
      ValuesAreSolid(space, parts, "agent_id");
      ValuesAreSolid(space, parts, "signal");
      ValuesAreSolid(space, parts, "reason");
      ValuesAreSolid(space, parts, "episodic_ref");
    }
  }

  /**
    Printing and parsing give the event back, accepted, if and only if no text has white space in it,
    the signal is there and the time is set.
   */
  lemma RoundTripExactly(space: Spaces, e: LearningEvent, now: int)
    requires GoodSpaces(space) && now != ZERO_TIME
    ensures Parse(space, Print(e, now)) == (e, true) <==> Carried(space, e)
  {
    if Carried(space, e) {
      CarriedComesBack(space, e, now);
    }
    ParsedIsSolid(space, Print(e, now));
  }

  /** An event once accepted is accepted again, unchanged, however often it is printed and parsed. */
  lemma AcceptedIsStable(space: Spaces, r: RuntimeEvent, now: int)
    requires GoodSpaces(space) && Parse(space, r).1 && r.createdAt != ZERO_TIME
    ensures Parse(space, Print(Parse(space, r).0, now)) == Parse(space, r)
  {
    ParsedIsSolid(space, r);
    CarriedComesBack(space, Parse(space, r).0, now);
  }

  method ParseLearningRuntimeEvent(space: Spaces, event: RuntimeEvent) returns (e: LearningEvent, ok: bool)
    ensures (e, ok) == Parse(space, event)
  {
    if event.kind != LEARNING {
      return NO_EVENT, false;
    }
    var parts := Fields(space, event.message);
    var fields: map<string, string> := map[];
    for i := 0 to |parts|
      invariant fields == FieldMap(parts[..i])
    {
      assert parts[..i + 1][..i] == parts[..i];
      var pair := CutPair(parts[i]);
      if pair.None? {
        continue;
      }
      fields := fields[pair.value.0 := pair.value.1];
    }
    assert parts[..|parts|] == parts;
    var lightweight := ParseBool(Get(fields, "lightweight"));
    if lightweight.None? {
      return NO_EVENT, false;
    }
    e := LearningEvent(Get(fields, "agent_id"), event.taskID, Get(fields, "signal"), Get(fields, "reason"),
                       Get(fields, "episodic_ref"), lightweight.value, event.createdAt);
    ok := Get(fields, "signal") != "";
  }

  // ---- the line itself ----

  lemma Spaced(a: string, b: string, c: string, d: string, e: string)
    ensures a + " " + (b + " " + (c + " " + (d + " " + e))) == a + " " + b + " " + c + " " + d + " " + e
  {
  }

  /** The line as it is written: five fields with blanks between them. */
  lemma PrintedLine(e: LearningEvent, now: int)
    ensures var r := Print(e, now);
      && r.kind == "learning_event" && r.taskID == e.taskID
      && r.createdAt == (if e.publishedAt == 0 then now else e.publishedAt)
      && r.message == Field("agent_id", e.agentID) + " " + Field("signal", e.signal) + " " + Field("reason", e.reason)
                      + " " + Field("episodic_ref", e.episodicRef)
                      + " " + Field("lightweight", if e.lightweight then "true" else "false")
  {
    Spaced(Field("agent_id", e.agentID), Field("signal", e.signal), Field("reason", e.reason),
           Field("episodic_ref", e.episodicRef), Field("lightweight", PrintBool(e.lightweight)));
  }

  lemma FieldText(key: string, value: string)
    ensures Field(key, value) == (key + "=") + value
  {
  }

  /** A word has a key if there is an equals sign in it. */
  lemma {:induction false} CutExactly(part: string)
    ensures CutPair(part).Some? <==> '=' in part
    ensures CutPair(part).Some? ==>
            var kv := CutPair(part).value; '=' !in kv.0 && part == kv.0 + "=" + kv.1
  {
    if part == [] {
    } else {
      assert part == [part[0]] + part[1..];
      CutExactly(part[1..]);
    }
  }

  predicate HasKey(part: string, key: string) { CutPair(part).Some? && CutPair(part).value.0 == key }

  lemma {:induction false} NoneOfKey(parts: seq<string>, key: string)
    requires forall part | part in parts :: !HasKey(part, key)
    ensures key !in FieldMap(parts)
  {
    if parts == [] {
    } else {
      var init, last := parts[..|parts| - 1], parts[|parts| - 1];
      assert last in parts && forall part | part in init :: part in parts;
      NoneOfKey(init, key);
    }
  }

  /** What is read for a key is the value of the last word with that key. */
  lemma {:induction false} LastOfKey(parts: seq<string>, key: string, i: nat)
    requires i < |parts| && HasKey(parts[i], key) && forall j | i < j < |parts| :: !HasKey(parts[j], key)
    ensures key in FieldMap(parts) && FieldMap(parts)[key] == CutPair(parts[i]).value.1
    decreases |parts|
  {
    if i < |parts| - 1 {
      assert !HasKey(parts[|parts| - 1], key);
      LastOfKey(parts[..|parts| - 1], key, i);
    }
  }

  /** Which runtime events are accepted as learning events, and what is then read from them. */
  lemma ParseExactly(space: Spaces, r: RuntimeEvent)
    ensures var fields := FieldMap(Fields(space, r.message));
      var light := Get(fields, "lightweight");
      var (e, ok) := Parse(space, r);
      && (ok <==> r.kind == "learning_event" && Get(fields, "signal") != ""
                  && light in {"1", "t", "T", "true", "TRUE", "True", "0", "f", "F", "false", "FALSE", "False"})
      && (ok ==>
            && e.agentID == Get(fields, "agent_id") && e.signal == Get(fields, "signal")
            && e.reason == Get(fields, "reason") && e.episodicRef == Get(fields, "episodic_ref")
            && e.taskID == r.taskID && e.publishedAt == r.createdAt
            && (e.lightweight <==> light in {"1", "t", "T", "true", "TRUE", "True"}))
  {
  }
}
