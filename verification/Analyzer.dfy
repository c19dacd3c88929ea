/** The biography tagger (src/analyzer.py). The generative model and `json.loads`
    are oracles handed in as functions; what is modelled is everything around them:
    the missing-key path, the prompt excerpt, fence stripping, result defaulting and
    the three-attempt retry loop with its "model not found" short circuit. */
module Analyzer {
  import opened Wrappers
  import opened PyStr
  import opened Json

  /** How many characters of the biography the prompt carries. */
  const BioLimit: nat := 4000

  /** How many times the model is called at most. */
  const MaxAttempts: nat := 3

  /** The industry recorded when the model names none. */
  const FallbackIndustry: string := "General Management"

  /** What one call of the model yields: the response text, or the message of the
      exception raised while calling it or reading its text. */
  datatype Attempt = Reply(text: string) | Raised(message: string)

  /** What `json.loads` yields: a value, or the message of its decode error. */
  datatype Parsed = Parsed(value: Json) | Malformed(message: string)

  /** The value the analyzer returns and how many model calls it made. */
  datatype Analysis = Analysis(result: Json, calls: nat)

  /** The outcome of one pass through the loop body. */
  datatype Outcome = Done(value: Json) | Failed(message: string)

  /** The part of the biography that is put into the prompt (`bio_text[:4000]`). */
  function BioExcerpt(bio: string): (r: string)
    ensures |r| <= BioLimit
    ensures r <= bio
    ensures |bio| <= BioLimit ==> r == bio
    ensures |bio| >= BioLimit ==> |r| == BioLimit
  {
    Slice(bio, 0, BioLimit)
  }

  /** Removes a Markdown code fence the model may wrap its JSON in: a "```json"
      opening drops seven characters in front, a bare "```" opening three, and
      either drops three at the end; slicing clamps, so a short text becomes empty. */
  function StripFence(text: string): (r: string)
    ensures |r| <= |text|
    ensures !StartsWith(text, "```") ==> r == text
    ensures StartsWith(text, "```json") ==>
              (if |text| >= 10 then r == text[7..|text| - 3] else r == "")
    ensures StartsWith(text, "```") && !StartsWith(text, "```json") ==>
              (if |text| >= 6 then r == text[3..|text| - 3] else r == "")
  {
    if StartsWith(text, "```json") then Slice(text, 7, -3)
    else if StartsWith(text, "```") then Slice(text, 3, -3)
    else text
  }

  /** Fencing a payload with "```json" and "```" and stripping the fence gives it back. */
  lemma FenceRoundTrip(payload: string)
    ensures StripFence("```json" + payload + "```") == payload
  {
    var t := "```json" + payload + "```";
    assert t[..7] == "```json";
    assert t[7..|t| - 3] == payload;
  }

  /** The same for a bare "```" fence, unless the payload itself begins with "json". */
  lemma BareFenceRoundTrip(payload: string)
    requires !StartsWith(payload, "json")
    ensures StripFence("```" + payload + "```") == payload
  {
    var t := "```" + payload + "```";
    assert t[..3] == "```";
    assert t[3..|t| - 3] == payload;
    assert !StartsWith(t, "```json") by {
      if |payload| >= 4 {
        assert t[3..7] == payload[..4];
        assert "```json"[3..7] == "json";
      } else {
        var k := 3 + |payload|;
        assert t[k] == '`';
        assert "```json"[k] != '`';
      }
    }
  }

  /** The value returned when the model gives nothing usable. */
  function DefaultTags(): Json
  {
    JObj(map["industries" := JArr([JStr(FallbackIndustry)]), "sectors" := JArr([])])
  }

  /** A dictionary with a non-empty "industries" entry and a "sectors" entry. */
  predicate IsTagObject(v: Json)
  {
    v.JObj? && "industries" in v.fields && Truthy(v.fields["industries"]) && "sectors" in v.fields
  }

  /** Whether a decoded value already has usable industries. */
  predicate HasIndustries(v: Json)
  {
    v.JObj? && "industries" in v.fields && Truthy(v.fields["industries"])
  }

  /** Brings a decoded value into shape: anything but a dictionary becomes the
      default, a missing or empty "industries" becomes the fallback industry, and a
      missing "sectors" becomes the empty list. */
  function Normalize(v: Json): (r: Json)
    ensures IsTagObject(r)
    ensures !v.JObj? ==> r == DefaultTags()
    ensures v.JObj? ==> r.fields.Keys == v.fields.Keys + {"industries", "sectors"}
    ensures v.JObj? ==> forall k :: k in v.fields && k != "industries" && k != "sectors" ==>
                                      r.fields[k] == v.fields[k]
    ensures HasIndustries(v) ==> r.fields["industries"] == v.fields["industries"]
    ensures v.JObj? && !HasIndustries(v) ==> r.fields["industries"] == JArr([JStr(FallbackIndustry)])
    ensures v.JObj? && "sectors" in v.fields ==> r.fields["sectors"] == v.fields["sectors"]
    ensures v.JObj? && "sectors" !in v.fields ==> r.fields["sectors"] == JArr([])
  {
    if !v.JObj? then DefaultTags()
    else
      var m := v.fields;
      var m1 := if HasIndustries(v) then m else m["industries" := JArr([JStr(FallbackIndustry)])];
      var m2 := if "sectors" in m1 then m1 else m1["sectors" := JArr([])];
      JObj(m2)
  }

  /** Normalizing an already normalized value changes nothing. */
  lemma NormalizeIdempotent(v: Json)
    ensures Normalize(Normalize(v)) == Normalize(v)
  {
    var r := Normalize(v);
    assert HasIndustries(r);
    assert Normalize(r).fields == r.fields;
  }

  /** An exception message that stops all retries: it mentions both "404" and "not found". */
  predicate IsModelNotFound(message: string)
  {
    Contains(message, "404") && Contains(message, "not found")
  }

  /** One pass through the loop body: call the model, strip the text and its fence,
      decode it and normalize the result. */
  function AttemptOutcome(a: Attempt, parse: string -> Parsed): (o: Outcome)
    ensures o.Done? ==> IsTagObject(o.value)
    ensures a.Raised? ==> o == Failed(a.message)
    ensures a.Reply? ==>
              match parse(StripFence(Strip(a.text)))
              case Parsed(v) => o == Done(Normalize(v))
              case Malformed(m) => o == Failed(m)
  {
    match a
    case Raised(m) => Failed(m)
    case Reply(t) =>
      match parse(StripFence(Strip(t)))
      case Parsed(v) => Done(Normalize(v))
      case Malformed(m) => Failed(m)
  }

  /** A reply fenced as "```json" ... "```" is decoded from what is inside the fence. */
  lemma FencedReply(payload: string, parse: string -> Parsed)
    ensures AttemptOutcome(Reply("```json" + payload + "```"), parse) ==
            match parse(payload)
            case Parsed(v) => Done(Normalize(v))
            case Malformed(m) => Failed(m)
  {
    var t := "```json" + payload + "```";
    assert t[0] == '`' && t[|t| - 1] == '`';
    assert IsStripped(t);
    FenceRoundTrip(payload);
    assert StripFence(Strip(t)) == payload;
  }

  /** The outcomes the successive model calls would have: the `i`-th is what the
      `i`-th call, `respond(excerpt, i)`, leads to. */
  function Outcomes(excerpt: string, respond: (string, nat) -> Attempt, parse: string -> Parsed): (os: seq<Outcome>)
    ensures |os| == MaxAttempts && Usable(os)
    ensures forall i :: 0 <= i < |os| ==> os[i] == AttemptOutcome(respond(excerpt, i), parse)
  {
    var os := seq(MaxAttempts, i requires 0 <= i => AttemptOutcome(respond(excerpt, i), parse));
    assert forall i :: 0 <= i < |os| ==> os[i] == AttemptOutcome(respond(excerpt, i), parse);
    os
  }

  /** Every successful outcome carries a well-formed tag object. */
  predicate Usable(os: seq<Outcome>)
  {
    forall i :: 0 <= i < |os| && os[i].Done? ==> IsTagObject(os[i].value)
  }

  /** A failure the loop retries: anything but "model not found". */
  predicate Retryable(o: Outcome)
  {
    o.Failed? && !IsModelNotFound(o.message)
  }

  /** The retry loop from attempt number `attempt` on, over the calls' outcomes. */
  function RetryFrom(os: seq<Outcome>, attempt: nat): (r: Analysis)
    requires |os| == MaxAttempts && Usable(os) && attempt < MaxAttempts
    ensures attempt < r.calls <= MaxAttempts
    ensures IsTagObject(r.result)
    decreases MaxAttempts - attempt
  {
    match os[attempt]
    case Done(v) => Analysis(v, attempt + 1)
    case Failed(m) =>
      if IsModelNotFound(m) then Analysis(DefaultTags(), attempt + 1)
      else if attempt < MaxAttempts - 1 then RetryFrom(os, attempt + 1)
      else Analysis(DefaultTags(), attempt + 1)
  }

  /** `analyze_bio_for_industries`: with no API key it returns the empty list and
      calls nothing; otherwise it runs the retry loop on the prompt excerpt. */
  function AnalyzeBio(bio: string, apiKey: Option<string>,
                      respond: (string, nat) -> Attempt, parse: string -> Parsed): (r: Analysis)
    ensures apiKey.None? || apiKey == Some("") ==> r.result == JArr([]) && r.calls == 0
    ensures apiKey.Some? && apiKey.value != "" ==> 1 <= r.calls <= MaxAttempts && IsTagObject(r.result)
  {
    if apiKey.None? || apiKey.value == "" then Analysis(JArr([]), 0)
    else RetryFrom(Outcomes(BioExcerpt(bio), respond, parse), 0)
  }

  /** Attempts `from` up to, not including, `k` all fail with retryable errors. */
  predicate RetryableUpTo(os: seq<Outcome>, from: nat, k: nat)
  {
    forall i :: from <= i < k && i < |os| ==> Retryable(os[i])
  }

  /** A retryable failure before the last attempt hands over to the next attempt. */
  lemma RetryStep(os: seq<Outcome>, from: nat)
    requires |os| == MaxAttempts && Usable(os) && from < MaxAttempts - 1
    requires Retryable(os[from])
    ensures RetryFrom(os, from) == RetryFrom(os, from + 1)
  {
  }

  /** A "model not found" failure ends the loop with the default result. */
  lemma NotFoundStep(os: seq<Outcome>, from: nat)
    requires |os| == MaxAttempts && Usable(os) && from < MaxAttempts
    requires os[from].Failed? && IsModelNotFound(os[from].message)
    ensures RetryFrom(os, from) == Analysis(DefaultTags(), from + 1)
  {
  }

  /** Retryable failures are passed over: the loop continues as if it started at
      the first attempt that did not fail that way. */
  lemma {:induction false} SkipRetryable(os: seq<Outcome>, from: nat, k: nat)
    requires |os| == MaxAttempts && Usable(os) && from <= k < MaxAttempts
    requires RetryableUpTo(os, from, k)
    ensures RetryFrom(os, from) == RetryFrom(os, k)
    decreases k - from
  {
    if from < k {
      RetryStep(os, from);
      SkipRetryable(os, from + 1, k);
    }
  }

  /** The first attempt that succeeds decides the result, provided every earlier
      attempt failed with a retryable error. */
  lemma FirstSuccessWins(os: seq<Outcome>, k: nat)
    requires |os| == MaxAttempts && Usable(os) && k < MaxAttempts
    requires RetryableUpTo(os, 0, k) && os[k].Done?
    ensures RetryFrom(os, 0) == Analysis(os[k].value, k + 1)
  {
    SkipRetryable(os, 0, k);
  }

  /** A "model not found" error ends the loop at once with the default result,
      provided every earlier attempt failed with a retryable error. */
  lemma NotFoundStopsRetrying(os: seq<Outcome>, k: nat)
    requires |os| == MaxAttempts && Usable(os) && k < MaxAttempts
    requires RetryableUpTo(os, 0, k)
    requires os[k].Failed? && IsModelNotFound(os[k].message)
    ensures RetryFrom(os, 0) == Analysis(DefaultTags(), k + 1)
  {
    SkipRetryable(os, 0, k);
    NotFoundStep(os, k);
  }

  /** When every attempt fails with a retryable error, the model is called exactly
      three times and the default result is returned. */
  lemma {:induction false} ExhaustedAttempts(os: seq<Outcome>, from: nat)
    requires |os| == MaxAttempts && Usable(os) && from < MaxAttempts
    requires RetryableUpTo(os, from, MaxAttempts)
    ensures RetryFrom(os, from) == Analysis(DefaultTags(), MaxAttempts)
    decreases MaxAttempts - from
  {
    if from < MaxAttempts - 1 {
      RetryStep(os, from);
      ExhaustedAttempts(os, from + 1);
    }
  }

  /** With an API key, the calls decide the result: the first call to succeed
      after retryable failures gives its tags, a "model not found" error after
      retryable failures gives the default, and three retryable failures give the
      default after three calls. */
  lemma KeyedAnalysis(bio: string, apiKey: Option<string>,
                      respond: (string, nat) -> Attempt, parse: string -> Parsed, k: nat)
    requires apiKey.Some? && apiKey.value != "" && k < MaxAttempts
    ensures var os := Outcomes(BioExcerpt(bio), respond, parse);
            RetryableUpTo(os, 0, k) && os[k].Done? ==>
              AnalyzeBio(bio, apiKey, respond, parse) == Analysis(os[k].value, k + 1)
    ensures var os := Outcomes(BioExcerpt(bio), respond, parse);
            RetryableUpTo(os, 0, k) && os[k].Failed? && IsModelNotFound(os[k].message) ==>
              AnalyzeBio(bio, apiKey, respond, parse) == Analysis(DefaultTags(), k + 1)
    ensures var os := Outcomes(BioExcerpt(bio), respond, parse);
            RetryableUpTo(os, 0, MaxAttempts) ==>
              AnalyzeBio(bio, apiKey, respond, parse) == Analysis(DefaultTags(), MaxAttempts)
  {
    var os := Outcomes(BioExcerpt(bio), respond, parse);
    assert AnalyzeBio(bio, apiKey, respond, parse) == RetryFrom(os, 0);
    if RetryableUpTo(os, 0, k) && os[k].Done? {
      FirstSuccessWins(os, k);
    }
    if RetryableUpTo(os, 0, k) && os[k].Failed? && IsModelNotFound(os[k].message) {
      NotFoundStopsRetrying(os, k);
    }
    if RetryableUpTo(os, 0, MaxAttempts) {
      ExhaustedAttempts(os, 0);
    }
  }

  /** Only the first 4000 characters of the biography can influence the result. */
  lemma OnlyExcerptMatters(bio1: string, bio2: string, apiKey: Option<string>,
                           respond: (string, nat) -> Attempt, parse: string -> Parsed)
    requires |bio1| >= BioLimit && |bio2| >= BioLimit
    requires bio1[..BioLimit] == bio2[..BioLimit]
    ensures AnalyzeBio(bio1, apiKey, respond, parse) == AnalyzeBio(bio2, apiKey, respond, parse)
  {
    assert BioExcerpt(bio1) == bio1[..BioLimit];
    assert BioExcerpt(bio2) == bio2[..BioLimit];
  }
}
