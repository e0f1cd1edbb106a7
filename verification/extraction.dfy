/**
 * Locating the JSON object in a language-model reply (the span from the first
 * `{` to the last `}`), decoding it, and the two callers: the job-description
 * analysis with its fallback, and the per-resume parsing loop.
 */
module Extraction {
  import opened Wrappers
  import opened PyText
  import opened Records

  /** `raw.find("{")`. */
  function SpanStart(raw: string): (start: int)
    ensures start == -1 <==> '{' !in raw
    ensures start != -1 ==> 0 <= start < |raw| && raw[start] == '{' && '{' !in raw[..start]
  {
    FindChar(raw, '{');
    Find(raw, "{")
  }

  /** `raw.rfind("}") + 1`: never -1, zero exactly when there is no `}`. */
  function SpanEnd(raw: string): (end: int)
    ensures 0 <= end <= |raw|
    ensures end == 0 <==> '}' !in raw
    ensures end != 0 ==> raw[end - 1] == '}' && '}' !in raw[end..]
  {
    RFindChar(raw, '}');
    RFind(raw, "}") + 1
  }

  /** The text the job-description path hands to the decoder: `raw[start:end]`, unguarded. */
  function JdJsonText(raw: string): (t: string)
    ensures |t| <= |raw|
    ensures t == [] || t == "}" || t[0] == '{'
  {
    var start, end := SpanStart(raw), SpanEnd(raw);
    if start == -1 && end == |raw| && |raw| > 0 then
      assert SliceBound(start, |raw|) == |raw| - 1;
      assert raw[|raw| - 1..|raw|] == "}";
      Slice(raw, start, end)
    else
      Slice(raw, start, end)
  }

  /**
   * The text the resume path hands to the decoder, or `None` when the guard
   * `start == -1 or end == -1` fires. `None` exactly when there is no `{`;
   * otherwise the span from the first `{` through the last `}` when that `}`
   * comes later, and the empty string when it does not.
   */
  function ResumeJsonText(raw: string): (t: Option<string>)
    ensures t.None? <==> '{' !in raw
    ensures t.Some? && SpanStart(raw) < SpanEnd(raw) ==>
      t.value == raw[SpanStart(raw)..SpanEnd(raw)] && t.value[0] == '{' && t.value[|t.value| - 1] == '}'
    ensures t.Some? && SpanEnd(raw) <= SpanStart(raw) ==> t.value == []
  {
    var start, end := SpanStart(raw), SpanEnd(raw);
    if start == -1 || end == -1 then None else Some(Slice(raw, start, end))
  }

  /** The `end == -1` half of the resume guard never fires; only a missing `{` does. */
  lemma ResumeGuardIsStartOnly(raw: string)
    ensures (SpanStart(raw) == -1 || SpanEnd(raw) == -1) <==> SpanStart(raw) == -1
  {
  }

  /** A `{` with no later `}` hands the decoder the empty string. */
  lemma NoClosingBraceGivesEmpty(raw: string)
    requires '{' in raw && '}' !in raw[SpanStart(raw)..]
    ensures ResumeJsonText(raw) == Some([])
  {
  }

  /**
   * The job-description slice agrees with the resume slice when there is a
   * `{`; without one, Python's `-1` start counts from the end and the decoder
   * receives either "" or the single character "}".
   */
  lemma JdJsonTextShape(raw: string)
    ensures '{' in raw ==> JdJsonText(raw) == ResumeJsonText(raw).value
    ensures '{' !in raw ==> JdJsonText(raw) == [] || JdJsonText(raw) == "}"
  {
    if '{' !in raw && |raw| > 0 {
      var end := SpanEnd(raw);
      if end == |raw| {
        assert raw[|raw| - 1..|raw|] == "}";
      }
    }
  }

  /**
   * The decoder only ever sees the empty string, `"}"`, or a text that begins
   * with `{`. The first two are not JSON and a JSON text beginning with `{` is
   * an object, so every successful decode is an object.
   */
  lemma DecoderInputs(raw: string)
    ensures ResumeJsonText(raw).Some? ==> ResumeJsonText(raw).value == [] || ResumeJsonText(raw).value[0] == '{'
    ensures JdJsonText(raw) == [] || JdJsonText(raw) == "}" || JdJsonText(raw)[0] == '{'
  {
    JdJsonTextShape(raw);
  }

  /** The resume record for an already stripped reply: the guarded slice, then `json.loads`. */
  function ParseRaw(raw: string, decode: Decoder): (data: Option<Object>)
    ensures '{' !in raw ==> data == None
    ensures '{' in raw ==> data == decode(ResumeJsonText(raw).value)
  {
    match ResumeJsonText(raw)
    case None => None
    case Some(t) => decode(t)
  }

  /** The resume record parsed from one reply: `raw = reply.strip()`, then `ParseRaw`. */
  function ParseReply(reply: string, decode: Decoder): (data: Option<Object>)
    ensures '{' !in reply ==> data == None
  {
    StripKeeps(reply, '{');
    ParseRaw(Strip(reply), decode)
  }

  /** `ParseReply` spelled out as the statements of the parsing loop's body. */
  lemma ParseReplySteps(reply: string, decode: Decoder)
    ensures ParseReply(reply, decode) ==
      var raw := Strip(reply);
      var start, end := Find(raw, "{"), RFind(raw, "}") + 1;
      if start == -1 || end == -1 then None else decode(Slice(raw, start, end))
  {
    var raw := Strip(reply);
    assert ParseReply(reply, decode) == ParseRaw(raw, decode);
    assert SpanStart(raw) == Find(raw, "{") && SpanEnd(raw) == RFind(raw, "}") + 1;
  }

  /**
   * One pass of the parsing loop: strip, locate the span, skip the reply when
   * the guard fires, otherwise decode the slice.
   */
  method ParseOne(reply: string, decode: Decoder) returns (data: Option<Object>)
    ensures data == ParseReply(reply, decode)
    ensures '{' !in reply ==> data == None
  {
    ParseReplySteps(reply, decode);
    var raw := Strip(reply);
    var start := Find(raw, "{");
    var end := RFind(raw, "}") + 1;
    if start == -1 || end == -1 {
      return None;
    }
    var cleanJson := Slice(raw, start, end);
    data := decode(cleanJson);
  }

  /** The records of the parsing loop for a prefix of the replies, in order. */
  function ParseAll(replies: seq<string>, decode: Decoder): (parsed: seq<Option<Object>>)
    ensures |parsed| == |replies|
  {
    if replies == [] then []
    else ParseAll(replies[..|replies| - 1], decode) + [ParseReply(replies[|replies| - 1], decode)]
  }

  /** Record `k` of `ParseAll` is parsed from reply `k` alone, so a reply without `{` yields `None`. */
  lemma {:induction false} ParseAllAt(replies: seq<string>, decode: Decoder, k: int)
    requires 0 <= k < |replies|
    ensures ParseAll(replies, decode)[k] == ParseReply(replies[k], decode)
    ensures '{' !in replies[k] ==> ParseAll(replies, decode)[k] == None
  {
    if k < |replies| - 1 {
      ParseAllAt(replies[..|replies| - 1], decode, k);
    }
  }

  /** The parsing loop: one record per reply, in order, `None` where extraction failed. */
  method ParseResumes(replies: seq<string>, decode: Decoder) returns (parsed: seq<Option<Object>>)
    ensures parsed == ParseAll(replies, decode)
    ensures |parsed| == |replies|
    ensures forall k :: 0 <= k < |replies| && '{' !in replies[k] ==> parsed[k] == None
  {
    parsed := [];
    for i := 0 to |replies|
      invariant parsed == ParseAll(replies[..i], decode)
    {
      var data := ParseOne(replies[i], decode);
      assert replies[..i + 1][..i] == replies[..i];
      parsed := parsed + [data];
    }
    assert replies[..|replies|] == replies;
    forall k | 0 <= k < |replies| && '{' !in replies[k] ensures parsed[k] == None {
      ParseAllAt(replies, decode, k);
    }
  }

  /** The object used when the job-description reply does not decode. */
  const FallbackJd: Object := map["required_skills" := StrList([]), "minimum_experience_years" := Num(0.0)]

  /**
   * The requirements read from a job-description object: the skills
   * lower-cased (so all lower case), the minimum years with default 0.
   */
  function RequirementsOf(jdData: Object): (req: Requirements)
    ensures |req.requiredSkills| == |StringsAt(jdData, "required_skills")|
    ensures forall k :: 0 <= k < |req.requiredSkills| ==> req.requiredSkills[k] == Lower(StringsAt(jdData, "required_skills")[k])
    ensures forall k :: 0 <= k < |req.requiredSkills| ==> Lower(req.requiredSkills[k]) == req.requiredSkills[k]
    ensures "minimum_experience_years" !in jdData ==> req.minimumExp == 0.0
    ensures "minimum_experience_years" in jdData && jdData["minimum_experience_years"].Num? ==>
      req.minimumExp == jdData["minimum_experience_years"].value
  {
    LowerAllLowered(StringsAt(jdData, "required_skills"));
    Requirements(LowerAll(StringsAt(jdData, "required_skills")), NumberAt(jdData, "minimum_experience_years"))
  }

  /** The fallback object yields no skills and a zero minimum. */
  lemma FallbackRequirements()
    ensures RequirementsOf(FallbackJd) == Requirements([], 0.0)
  {
  }

  /**
   * The job-description analysis: decode the brace span of the stripped reply
   * (falling back to no skills and zero years), then read the requirements.
   */
  function AnalyzeJd(reply: string, decode: Decoder): (req: Requirements)
    ensures decode(JdJsonText(Strip(reply))).None? ==> req == Requirements([], 0.0)
    ensures forall k :: 0 <= k < |req.requiredSkills| ==> Lower(req.requiredSkills[k]) == req.requiredSkills[k]
  {
    FallbackRequirements();
    match decode(JdJsonText(Strip(reply)))
    case Some(jdData) => RequirementsOf(jdData)
    case None => RequirementsOf(FallbackJd)
  }

  /**
   * A job-description reply without `{` falls back to no skills and a zero
   * minimum, for any decoder that rejects `""` and `"}"` as `json.loads` does.
   */
  lemma JdWithoutBraceFallsBack(reply: string, decode: Decoder)
    requires decode([]) == None && decode("}") == None
    requires '{' !in reply
    ensures AnalyzeJd(reply, decode) == Requirements([], 0.0)
  {
    StripKeeps(reply, '{');
    JdJsonTextShape(Strip(reply));
  }

  /** A decoded job description keeps its listed skills (lower-cased) and its number of years. */
  lemma AnalyzeJdDecoded(reply: string, decode: Decoder, obj: Object, skills: seq<string>, years: real)
    requires decode(JdJsonText(Strip(reply))) == Some(obj)
    requires "required_skills" in obj && obj["required_skills"] == StrList(skills)
    requires "minimum_experience_years" in obj && obj["minimum_experience_years"] == Num(years)
    ensures AnalyzeJd(reply, decode) == Requirements(LowerAll(skills), years)
  {
  }
}
