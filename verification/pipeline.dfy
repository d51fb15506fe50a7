/** The parse orchestrator `tryParseJson`, the response unwrapper
    `unwrapResponse` and the top-level driver `parseLLMJson`
    (src/utils/jsonParser.ts:1-17, 197-323). Exceptions thrown by `JSON.parse`
    become `None` results and failures are values, so the fall-through chain
    of attempts is visible as data flow. */
module Pipeline {
  import opened Wrappers
  import opened Text
  import opened JsonValue
  import Boundary
  import Repair
  import Extract

  /** The per-call options, each defaulted when the caller leaves it out. */
  datatype Config = Config(attemptFix: bool, maxBlocks: int, preferFirst: bool, allowPartial: bool)

  const Defaults := Config(true, 5, true, false)

  /** What a call depends on outside this model: the host's `JSON.parse`
      (`None` where it throws) and the regex passes of the repair engine. */
  datatype Host = Host(parse: string -> Option<Json>, passes: Repair.RegexPasses)

  /** The outcome of one `tryParseJson` call. */
  datatype Attempt = Parsed(data: Json) | Failed(error: string)

  /** What `parseLLMJson` returns: the unwrapped value, or the failure object
      `{success: false, data: null, error, rawJson: null}`. */
  datatype Outcome = Value(data: Json) | Failure(error: string)

  const EmptyJsonError := "Empty JSON string"
  const AllAttemptsFailedError := "Failed to parse JSON after all attempts"
  const InvalidInputError := "Invalid input: response must be a non-empty string"
  const NoJsonError := "No valid JSON found in the response"

  /** The `maxAttempts` default of the unwrapper, the only value it is called with. */
  const MaxUnwraps: nat := 2

  /** A scanner result that `tryParseJson` and `parseLLMJson` go on to parse: a non-empty string. */
  function Usable(o: Option<string>): seq<string> {
    if o.Some? && o.value != [] then [o.value] else []
  }

  /** `tryParseJson`: direct parse of the trimmed text; then, if fixing is on,
      the scanned region, the repaired text, and the region scanned out of the
      repaired text, stopping at the first that parses. */
  function TryParse(cfg: Config, host: Host, s: string): (r: Attempt)
    ensures r == Failed(EmptyJsonError) <==> AllSpace(s)
    ensures r.Failed? ==> r.error == EmptyJsonError || r.error == AllAttemptsFailedError
    ensures !AllSpace(s) && host.parse(Trim(s)).Some? ==> r == Parsed(host.parse(Trim(s)).value)
    ensures !AllSpace(s) && !cfg.attemptFix && host.parse(Trim(s)).None? ==> r == Failed(AllAttemptsFailedError)
  {
    if Trim(s) == [] then Failed(EmptyJsonError)
    else
      var clean := Trim(s);
      match host.parse(clean)
      case Some(v) => Parsed(v)
      case None =>
        if !cfg.attemptFix then Failed(AllAttemptsFailedError)
        else
          var bounded := Boundary.Boundaries(clean, cfg.allowPartial);
          var viaBounds := if bounded.Some? && bounded.value != [] then host.parse(bounded.value) else None;
          if viaBounds.Some? then Parsed(viaBounds.value)
          else
            var fixed := Repair.Repair(host.passes, cfg.allowPartial, clean);
            match host.parse(fixed)
            case Some(v) => Parsed(v)
            case None =>
              var extracted := Boundary.Boundaries(fixed, cfg.allowPartial);
              var viaExtracted := if extracted.Some? && extracted.value != [] then host.parse(extracted.value) else None;
              if viaExtracted.Some? then Parsed(viaExtracted.value) else Failed(AllAttemptsFailedError)
  }

  /** Reference definition: the texts the orchestrator hands to `JSON.parse`,
      in order. */
  function AttemptTexts(cfg: Config, host: Host, s: string): seq<string> {
    var clean := Trim(s);
    var fixed := Repair.Repair(host.passes, cfg.allowPartial, clean);
    [clean] +
    if cfg.attemptFix then
      Usable(Boundary.Boundaries(clean, cfg.allowPartial)) + [fixed]
      + Usable(Boundary.Boundaries(fixed, cfg.allowPartial))
    else []
  }

  /** The value of the first text that parses. */
  function FirstParse(parse: string -> Option<Json>, texts: seq<string>): Option<Json> {
    if texts == [] then None
    else if parse(texts[0]).Some? then parse(texts[0])
    else FirstParse(parse, texts[1..])
  }

  /** `FirstParse` finds a text that parses with none parsing before it, or
      reports that none parses. */
  lemma {:induction false} FirstParseMeaning(parse: string -> Option<Json>, texts: seq<string>)
    ensures FirstParse(parse, texts).Some? ==>
      exists i :: 0 <= i < |texts| && parse(texts[i]) == FirstParse(parse, texts)
                  && forall j :: 0 <= j < i ==> parse(texts[j]).None?
    ensures FirstParse(parse, texts).None? ==> forall i :: 0 <= i < |texts| ==> parse(texts[i]).None?
  {
    if texts != [] && parse(texts[0]).None? {
      FirstParseMeaning(parse, texts[1..]);
      assert forall i :: 0 < i < |texts| ==> texts[i] == texts[1..][i - 1];
      if FirstParse(parse, texts).Some? {
        var i :| 0 <= i < |texts[1..]| && parse(texts[1..][i]) == FirstParse(parse, texts)
                 && forall j :: 0 <= j < i ==> parse(texts[1..][j]).None?;
        assert parse(texts[i + 1]) == FirstParse(parse, texts);
      }
    }
  }

  lemma FirstParseAppend(parse: string -> Option<Json>, a: seq<string>, b: seq<string>)
    ensures FirstParse(parse, a + b) == if FirstParse(parse, a).Some? then FirstParse(parse, a) else FirstParse(parse, b)
  {
    if a != [] {
      assert (a + b)[1..] == a[1..] + b;
      FirstParseAppend(parse, a[1..], b);
    } else {
      assert a + b == b;
    }
  }

  lemma FirstParseSingle(parse: string -> Option<Json>, s: string)
    ensures FirstParse(parse, [s]) == parse(s)
  {
    assert [s][1..] == [];
  }

  /** The orchestrator returns the first success among its attempts, in the
      order direct, scan, repair, scan of the repair, or the fixed failure. */
  lemma TryParseIsFirstSuccess(cfg: Config, host: Host, s: string)
    requires !AllSpace(s)
    ensures TryParse(cfg, host, s) ==
      match FirstParse(host.parse, AttemptTexts(cfg, host, s))
      case Some(v) => Parsed(v)
      case None => Failed(AllAttemptsFailedError)
  {
    var clean := Trim(s);
    var texts := AttemptTexts(cfg, host, s);
    if !cfg.attemptFix {
      assert texts == [clean];
      FirstParseSingle(host.parse, clean);
    } else {
      var fixed := Repair.Repair(host.passes, cfg.allowPartial, clean);
      var b1 := Usable(Boundary.Boundaries(clean, cfg.allowPartial));
      var b2 := Usable(Boundary.Boundaries(fixed, cfg.allowPartial));
      var rest := b1 + [fixed] + b2;
      assert texts == [clean] + rest;
      FirstParseAppend(host.parse, [clean], rest);
      FirstParseSingle(host.parse, clean);
      if host.parse(clean).None? {
        TryParseRepairs(cfg, host, s);
      }
    }
  }

  /** `TryParse` once the direct parse has failed with fixing on. */
  lemma TryParseRepairs(cfg: Config, host: Host, s: string)
    requires !AllSpace(s) && cfg.attemptFix && host.parse(Trim(s)).None?
    ensures
      var clean := Trim(s);
      var fixed := Repair.Repair(host.passes, cfg.allowPartial, clean);
      var b1 := Usable(Boundary.Boundaries(clean, cfg.allowPartial));
      var b2 := Usable(Boundary.Boundaries(fixed, cfg.allowPartial));
      TryParse(cfg, host, s) ==
        match FirstParse(host.parse, b1 + [fixed] + b2)
        case Some(v) => Parsed(v)
        case None => Failed(AllAttemptsFailedError)
  {
    var clean := Trim(s);
    var fixed := Repair.Repair(host.passes, cfg.allowPartial, clean);
    var b1 := Usable(Boundary.Boundaries(clean, cfg.allowPartial));
    var b2 := Usable(Boundary.Boundaries(fixed, cfg.allowPartial));
    FirstParseAppend(host.parse, b1 + [fixed], b2);
    FirstParseAppend(host.parse, b1, [fixed]);
    FirstParseSingle(host.parse, fixed);
    FirstParseUsable(host.parse, Boundary.Boundaries(clean, cfg.allowPartial));
    FirstParseUsable(host.parse, Boundary.Boundaries(fixed, cfg.allowPartial));
  }

  lemma FirstParseUsable(parse: string -> Option<Json>, o: Option<string>)
    ensures FirstParse(parse, Usable(o)) == if o.Some? && o.value != [] then parse(o.value) else None
  {
    if o.Some? && o.value != [] {
      FirstParseSingle(parse, o.value);
    }
  }

  /** One pass of the unwrapping loop: the value that replaces `v`, or `None`
      where the loop stops. Exactly an object whose truthy `response` member
      is an object, an array, or a string the orchestrator parses is peeled. */
  function Peel(cfg: Config, host: Host, v: Json): (r: Option<Json>)
    ensures r.Some? <==>
      && v.JObject? && "response" in v.members && Truthy(v.members["response"])
      && (|| v.members["response"].JObject? || v.members["response"].JArray?
          || (v.members["response"].JString? && TryParse(cfg, host, v.members["response"].s).Parsed?))
    ensures r.Some? && !v.members["response"].JString? ==> r.value == v.members["response"]
    ensures r.Some? && v.members["response"].JString? ==>
              TryParse(cfg, host, v.members["response"].s) == Parsed(r.value)
  {
    if !(Truthy(v) && IsObjectLike(v)) then None
    else if !(v.JObject? && "response" in v.members && Truthy(v.members["response"])) then None
    else
      var inner := v.members["response"];
      if inner.JString? then
        match TryParse(cfg, host, inner.s)
        case Parsed(w) => Some(w)
        case Failed(_) => None
      else if IsObjectLike(inner) then Some(inner)
      else None
  }

  /** `Peel` as the step the unwrapping loop repeats. */
  function Peeler(cfg: Config, host: Host): Json -> Option<Json> {
    v => Peel(cfg, host, v)
  }

  /** The unwrapping loop from `attempts` successful peels on, for any step
      function: the final `current` and `attempts`. The loop takes at most
      `maxAttempts - attempts` steps and stops early only where no further
      step applies. */
  function Unwrap(step: Json -> Option<Json>, v: Json, attempts: nat, maxAttempts: nat): (r: (Json, nat))
    ensures attempts <= r.1 && (attempts <= maxAttempts ==> r.1 <= maxAttempts)
    ensures Peels(step, v, r.1 - attempts) == Some(r.0)
    ensures r.1 >= maxAttempts || step(r.0).None?
    decreases maxAttempts - attempts
  {
    if attempts >= maxAttempts then (v, attempts)
    else
      match step(v)
      case None => (v, attempts)
      case Some(w) => Unwrap(step, w, attempts + 1, maxAttempts)
  }

  /** `unwrapResponse(data)` with its default bound: the value after at most
      two peels, and after exactly two when a third would still apply. */
  function UnwrapResponse(cfg: Config, host: Host, v: Json): (r: Json)
    ensures r == v || Peels(Peeler(cfg, host), v, 1) == Some(r) || Peels(Peeler(cfg, host), v, 2) == Some(r)
    ensures Peel(cfg, host, r).Some? ==> Peels(Peeler(cfg, host), v, MaxUnwraps) == Some(r)
  {
    Unwrap(Peeler(cfg, host), v, 0, MaxUnwraps).0
  }

  /** `k` successive steps, if all of them succeed. */
  function Peels(step: Json -> Option<Json>, v: Json, k: nat): Option<Json>
    decreases k
  {
    if k == 0 then Some(v)
    else
      match step(v)
      case None => None
      case Some(w) => Peels(step, w, k - 1)
  }

  /** The loop leaves the value as it is when it is not an object, when its
      `response` member is missing or falsy, when that member is neither a
      string nor an object, and when it is a string that does not parse. */
  lemma UnwrapStops(cfg: Config, host: Host, v: Json, maxAttempts: nat)
    requires
      || !v.JObject?
      || "response" !in v.members
      || !Truthy(v.members["response"])
      || v.members["response"].JBool? || v.members["response"].JNumber?
      || (v.members["response"].JString? && TryParse(cfg, host, v.members["response"].s).Failed?)
    ensures Unwrap(Peeler(cfg, host), v, 0, maxAttempts).0 == v
  {
    assert Peel(cfg, host, v).None?;
  }

  /** Three nested envelopes with the default bound: exactly two layers are
      peeled and the innermost envelope is returned untouched. */
  lemma NestedEnvelopes(cfg: Config, host: Host)
    ensures
      var innermost := JObject(map["response" := JString("ignored")]);
      var middle := JObject(map["response" := innermost]);
      UnwrapResponse(cfg, host, JObject(map["response" := middle])) == innermost
  {
    var innermost := JObject(map["response" := JString("ignored")]);
    var middle := JObject(map["response" := innermost]);
    var outer := JObject(map["response" := middle]);
    assert Peel(cfg, host, outer) == Some(middle);
    assert Peel(cfg, host, middle) == Some(innermost);
  }

  /** A payload wrapped as a string is parsed by the orchestrator, with its
      scanning and repair, and returned: one layer of string unwrapping, after
      which an object without a `response` member stops the loop. */
  lemma StringEnvelope(cfg: Config, host: Host, payload: string, x: Json)
    requires TryParse(cfg, host, payload) == Parsed(x)
    requires x.JObject? && "response" !in x.members
    ensures UnwrapResponse(cfg, host, JObject(map["response" := JString(payload)])) == x
  {
    var envelope := JObject(map["response" := JString(payload)]);
    PeelString(cfg, host, payload, x);
    UnwrapStep(cfg, host, envelope, x, 0, MaxUnwraps);
    assert Peel(cfg, host, x).None?;
    UnwrapDone(cfg, host, x, 1, MaxUnwraps);
  }

  lemma PeelString(cfg: Config, host: Host, payload: string, x: Json)
    requires payload != [] && TryParse(cfg, host, payload) == Parsed(x)
    ensures Peel(cfg, host, JObject(map["response" := JString(payload)])) == Some(x)
  {
    var envelope := JObject(map["response" := JString(payload)]);
    assert "response" in envelope.members && envelope.members["response"] == JString(payload);
    assert Truthy(envelope) && IsObjectLike(envelope) && Truthy(JString(payload));
  }

  lemma UnwrapStep(cfg: Config, host: Host, v: Json, w: Json, attempts: nat, maxAttempts: nat)
    requires attempts < maxAttempts && Peel(cfg, host, v) == Some(w)
    ensures Unwrap(Peeler(cfg, host), v, attempts, maxAttempts) == Unwrap(Peeler(cfg, host), w, attempts + 1, maxAttempts)
  {
  }

  lemma UnwrapDone(cfg: Config, host: Host, v: Json, attempts: nat, maxAttempts: nat)
    requires Peel(cfg, host, v).None?
    ensures Unwrap(Peeler(cfg, host), v, attempts, maxAttempts).0 == v
  {
  }

  /** The orchestrator as the driver uses it: the parsed value, or `None`
      where it reports a failure. */
  function Orchestrator(cfg: Config, host: Host): string -> Option<Json> {
    s => match TryParse(cfg, host, s)
         case Parsed(v) => Some(v)
         case Failed(_) => None
  }

  /** `parseLLMJson`. `response` is `None` for a value that is not a string;
      `tm` holds what the extractor's patterns match in it. */
  function ParseLLMJson(response: Option<string>, cfg: Config, host: Host, tm: Extract.TierMatches): (r: Outcome)
    ensures r == Failure(InvalidInputError) <==> response.None? || response.value == []
    ensures r.Failure? ==> r.error == InvalidInputError || r.error == NoJsonError
  {
    if response.None? || response.value == [] then Failure(InvalidInputError)
    else
      var text := response.value;
      var candidates := Extract.ExtractJson(tm, cfg.maxBlocks, cfg.preferFirst);
      var aggressive := if cfg.attemptFix then Usable(Boundary.Boundaries(text, cfg.allowPartial)) else [];
      match Fallback(Orchestrator(cfg, host), candidates, text, aggressive)
      case Some(v) => Value(UnwrapResponse(cfg, host, v))
      case None => Failure(NoJsonError)
  }

  /** The driver's chain of attempts: each extracted candidate in turn, then
      the whole response, then the scanned region of the raw response when
      there is one. The chain tries the texts in order and stops at the first
      success. */
  function Fallback(attempt: string -> Option<Json>, candidates: seq<string>, text: string, aggressive: seq<string>): (r: Option<Json>)
    ensures |aggressive| <= 1 ==> r == FirstParse(attempt, candidates + [text] + aggressive)
  {
    FirstParseAppend(attempt, candidates + [text], aggressive);
    FirstParseAppend(attempt, candidates, [text]);
    FirstParseSingle(attempt, text);
    if aggressive != [] then
      FirstParseSingle(attempt, aggressive[0]);
      assert |aggressive| <= 1 ==> aggressive == [aggressive[0]];
      match FirstParse(attempt, candidates)
      case Some(v) => Some(v)
      case None =>
        match attempt(text)
        case Some(v) => Some(v)
        case None => attempt(aggressive[0])
    else
      match FirstParse(attempt, candidates)
      case Some(v) => Some(v)
      case None => attempt(text)
  }

  /** Reference definition: the texts the driver hands to the orchestrator, in
      order: the extracted candidates, the whole response, and, with fixing
      on, the region scanned out of the raw response. */
  function DriverTexts(text: string, cfg: Config, tm: Extract.TierMatches): seq<string> {
    Extract.ExtractJson(tm, cfg.maxBlocks, cfg.preferFirst) + [text]
    + (if cfg.attemptFix then Usable(Boundary.Boundaries(text, cfg.allowPartial)) else [])
  }

  /** For a non-empty string the driver returns the unwrapped value of the
      first of its texts that the orchestrator parses, later texts untried,
      and the "no valid JSON" failure when none does. */
  lemma DriverIsFirstSuccess(text: string, cfg: Config, host: Host, tm: Extract.TierMatches)
    requires text != []
    ensures ParseLLMJson(Some(text), cfg, host, tm) ==
      match FirstParse(Orchestrator(cfg, host), DriverTexts(text, cfg, tm))
      case Some(v) => Value(UnwrapResponse(cfg, host, v))
      case None => Failure(NoJsonError)
  {
    var aggressive := if cfg.attemptFix then Usable(Boundary.Boundaries(text, cfg.allowPartial)) else [];
    assert |aggressive| <= 1;
  }

  /** A candidate that parses wins when every earlier one failed. */
  lemma FirstParsedCandidateWins(text: string, cfg: Config, host: Host, tm: Extract.TierMatches, i: nat, v: Json)
    requires text != []
    requires var candidates := Extract.ExtractJson(tm, cfg.maxBlocks, cfg.preferFirst);
      && i < |candidates| && TryParse(cfg, host, candidates[i]) == Parsed(v)
      && forall c :: c in candidates[..i] ==> TryParse(cfg, host, c).Failed?
    ensures ParseLLMJson(Some(text), cfg, host, tm) == Value(UnwrapResponse(cfg, host, v))
  {
    var candidates := Extract.ExtractJson(tm, cfg.maxBlocks, cfg.preferFirst);
    var attempt := Orchestrator(cfg, host);
    assert attempt(candidates[i]) == Some(v);
    assert forall c :: c in candidates[..i] ==> attempt(c).None?;
    FirstParsePicks(attempt, candidates, i, v);
    CandidatesFirst(text, cfg, host, tm);
  }

  lemma CandidatesFirst(text: string, cfg: Config, host: Host, tm: Extract.TierMatches)
    requires text != []
    requires FirstParse(Orchestrator(cfg, host), Extract.ExtractJson(tm, cfg.maxBlocks, cfg.preferFirst)).Some?
    ensures ParseLLMJson(Some(text), cfg, host, tm) ==
      Value(UnwrapResponse(cfg, host, FirstParse(Orchestrator(cfg, host), Extract.ExtractJson(tm, cfg.maxBlocks, cfg.preferFirst)).value))
  {
  }

  /** The converse of `FirstParseMeaning`: a text that parses, with none
      parsing before it, gives the result. */
  lemma {:induction false} FirstParsePicks(parse: string -> Option<Json>, texts: seq<string>, i: nat, v: Json)
    requires i < |texts| && parse(texts[i]) == Some(v)
    requires forall t :: t in texts[..i] ==> parse(t).None?
    ensures FirstParse(parse, texts) == Some(v)
    decreases i
  {
    if i > 0 {
      assert texts[0] in texts[..i];
      TailPrefix(texts, i);
      FirstParsePicks(parse, texts[1..], i - 1, v);
    }
  }

  lemma TailPrefix(texts: seq<string>, i: nat)
    requires 0 < i < |texts|
    ensures texts[1..][i - 1] == texts[i]
    ensures forall t :: t in texts[1..][..i - 1] ==> t in texts[..i]
  {
    assert texts[1..][..i - 1] == texts[1..i];
  }

  /** A blank response whose pattern matches are blank too ends in the "no
      valid JSON" failure: no candidate survives trimming, the orchestrator
      rejects blank text, and the scanner finds no opener. */
  lemma BlankResponseFails(text: string, cfg: Config, host: Host, tm: Extract.TierMatches)
    requires text != [] && AllSpace(text)
    requires forall m :: m in tm.fenced + tm.code + tm.inline + tm.objects + tm.arrays ==> AllSpace(m)
    ensures ParseLLMJson(Some(text), cfg, host, tm) == Failure(NoJsonError)
  {
    BlankMatchesExtractNothing(cfg, tm);
    BlankTextHasNoRegion(text, cfg.allowPartial);
    assert Orchestrator(cfg, host)(text).None?;
  }

  lemma BlankMatchesExtractNothing(cfg: Config, tm: Extract.TierMatches)
    requires forall m :: m in tm.fenced + tm.code + tm.inline + tm.objects + tm.arrays ==> AllSpace(m)
    ensures Extract.ExtractJson(tm, cfg.maxBlocks, cfg.preferFirst) == []
  {
    var all := tm.fenced + tm.code + tm.inline + tm.objects + tm.arrays;
    BlankCapturesKeepNothing(tm.fenced, 1, all);
    BlankCapturesKeepNothing(tm.code, 2, all);
    BlankCapturesKeepNothing(tm.inline, 3, all);
    BlankCapturesKeepNothing(tm.objects, 4, all);
    BlankCapturesKeepNothing(tm.arrays, 4, all);
    assert Extract.AllKept(tm) == [];
    Extract.ExtractJsonMeaning(tm, cfg.maxBlocks, cfg.preferFirst);
  }

  lemma BlankTextHasNoRegion(text: string, allowPartial: bool)
    requires AllSpace(text)
    ensures Boundary.Boundaries(text, allowPartial).None?
  {
    forall j | 0 <= j < |text|
      ensures !Boundary.OpensAt(text, j)
    {
      assert IsSpace(text[j]);
    }
    Boundary.NoOpenerIsNull(text, allowPartial);
  }

  lemma {:induction false} BlankCapturesKeepNothing(matches: seq<string>, tier: nat, all: seq<string>)
    requires forall m :: m in matches ==> m in all
    requires forall m :: m in all ==> AllSpace(m)
    ensures Extract.Kept(matches, tier) == []
    decreases |matches|
  {
    if matches != [] {
      assert matches[0] in all;
      BlankCapturesKeepNothing(matches[1..], tier, all);
    }
  }
}
