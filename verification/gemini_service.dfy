/** What services/geminiService.ts does with the reasoning service's replies.
    The service call itself is a parameter (its outcome), and so is the JSON
    parser; the prompts and tool configuration are not modelled. */
module GeminiService {
  import opened Wrappers
  import opened Types
  import Text
  import JsonExtract

  /** The `{title, uri}` payload of a `maps` or `web` grounding chunk. */
  datatype ChunkRef = ChunkRef(title: Option<string>, uri: string)

  /** One entry of `groundingMetadata.groundingChunks`. */
  datatype GroundingChunk = GroundingChunk(maps: Option<ChunkRef>, web: Option<ChunkRef>)

  /** The parts of a `generateContent` response the service reads:
      `response.text` and the first candidate's grounding chunks. */
  datatype ModelResponse = ModelResponse(
    text: Option<string>,
    groundingChunks: Option<seq<GroundingChunk>>)

  /** A rejection of the `generateContent` promise (network, quota, ...). */
  datatype ServiceError = ServiceError(message: string)

  /** Why the core fetch throws. */
  datatype CoreError =
    | ServiceFailure(cause: ServiceError)
    | EmptyResponse          // no text, or only whitespace
    | MalformedResponse      // no JSON object could be extracted
    | MissingDrivingSection  // `parsed.driving.trafficStatus` on an absent `driving`
    | InvalidTimeValues      // drive or walk time missing or zero

  /** The JSON parser, `JSON.parse`, left uninterpreted. */
  type Parser = string -> Option<PartialAnalysis>

  /** A reply text that is missing or holds only whitespace. */
  predicate IsBlankReply(text: Option<string>) {
    text.None? || Text.IsBlank(text.value)
  }

  /** A reply is blank exactly when its text is missing, empty, or trims to
      the empty string. */
  lemma BlankReplyIffTrimmedEmpty(text: Option<string>)
    ensures IsBlankReply(text) <==> !TruthyString(text) || Text.Trim(text.value) == ""
  {
    if text.Some? {
      Text.BlankIffTrimEmpty(text.value);
    }
  }

  /** The parsed object of a reply, if one can be salvaged from its text. */
  function Parsed(response: ModelResponse, parse: Parser): Option<PartialAnalysis> {
    JsonExtract.ExtractJson(response.text, parse)
  }

  // ------------------------------------------------------------- core fetch

  /** A traffic status the core path replaces: missing, empty, or "unknown"
      in any letter case. */
  predicate IsUnknownStatus(s: Option<string>) {
    !TruthyString(s) || Text.ToLower(s.value) == "unknown"
  }

  /** A traffic status the core path keeps as it is. */
  predicate KnownStatus(s: string) {
    s != "" && Text.ToLower(s) != "unknown"
  }

  /** The traffic-status fix of the core path. */
  function NormalizeStatus(s: Option<string>): (r: Option<string>)
    ensures r.Some? && KnownStatus(r.value)
    ensures IsUnknownStatus(s) ==> r == Some("Moderate")
    ensures !IsUnknownStatus(s) ==> r == s
  {
    if IsUnknownStatus(s) then Some("Moderate") else s
  }

  /** Normalising an already normalised status changes nothing. */
  lemma NormalizeStatusIdempotent(s: Option<string>)
    ensures NormalizeStatus(NormalizeStatus(s)) == NormalizeStatus(s)
  {
  }

  /** A core reply that passed validation: both times present and non-zero,
      and a traffic status the display understands. */
  predicate ValidCore(p: PartialAnalysis) {
    && p.driving.Some? && TruthyNumber(p.driving.value.driveTimeMins)
    && p.driving.value.trafficStatus.Some? && KnownStatus(p.driving.value.trafficStatus.value)
    && p.walking.Some? && TruthyNumber(p.walking.value.walkTimeMins)
  }

  /** The core fetch after the service has answered: every
      failure is thrown to the caller; success returns the parsed object
      with only its traffic status possibly rewritten. */
  function CoreAnalysis(reply: Result<ModelResponse, ServiceError>, parse: Parser): (r: Result<PartialAnalysis, CoreError>)
    ensures reply.Failure? ==> r == Failure(ServiceFailure(reply.error))
    ensures reply.Success? && IsBlankReply(reply.value.text) ==> r == Failure(EmptyResponse)
    ensures reply.Success? && !IsBlankReply(reply.value.text) && Parsed(reply.value, parse).None? ==>
              r == Failure(MalformedResponse)
    ensures reply.Success? && !IsBlankReply(reply.value.text) && Parsed(reply.value, parse).Some? ==>
              var p := Parsed(reply.value, parse).value;
              && (p.driving.None? ==> r == Failure(MissingDrivingSection))
              && (p.driving.Some? && !(TruthyNumber(p.driving.value.driveTimeMins) && p.walking.Some?
                                       && TruthyNumber(p.walking.value.walkTimeMins))
                  ==> r == Failure(InvalidTimeValues))
    ensures r.Success? ==>
              && reply.Success? && !IsBlankReply(reply.value.text) && Parsed(reply.value, parse).Some?
              && var p := Parsed(reply.value, parse).value;
              && p.driving.Some?
              && TruthyNumber(p.driving.value.driveTimeMins)
              && p.walking.Some? && TruthyNumber(p.walking.value.walkTimeMins)
              && r.value.(driving := p.driving) == p
              && r.value.driving.Some?
              && r.value.driving.value.(trafficStatus := p.driving.value.trafficStatus) == p.driving.value
              && r.value.driving.value.trafficStatus == NormalizeStatus(p.driving.value.trafficStatus)
    ensures r.Success? ==> ValidCore(r.value)
    ensures reply.Success? && !IsBlankReply(reply.value.text) && Parsed(reply.value, parse).Some? &&
            (var p := Parsed(reply.value, parse).value;
             p.driving.Some? && TruthyNumber(p.driving.value.driveTimeMins) &&
             p.walking.Some? && TruthyNumber(p.walking.value.walkTimeMins)) ==>
              r.Success?
  {
    match reply
    case Failure(e) => Failure(ServiceFailure(e))
    case Success(response) =>
      if IsBlankReply(response.text) then Failure(EmptyResponse)
      else
        match Parsed(response, parse)
        case None => Failure(MalformedResponse)
        case Some(p) =>
          if p.driving.None? then Failure(MissingDrivingSection)
          else
            var fixed := p.(driving := Some(p.driving.value.(
              trafficStatus := NormalizeStatus(p.driving.value.trafficStatus))));
            if !TruthyNumber(p.driving.value.driveTimeMins)
               || p.walking.None? || !TruthyNumber(p.walking.value.walkTimeMins)
            then Failure(InvalidTimeValues)
            else Success(fixed)
  }

  // ------------------------------------------------------------- deep fetch

  /** What the deep path returns whenever anything goes wrong. */
  const DeepFallback: PartialAnalysis := EmptyPartial.(groundingSources := Some([]))

  /** One grounding chunk as a source: `maps` is tried before `web`, an
      absent or empty title becomes "Map" or "Web", and any other chunk is
      dropped. */
  function ProjectChunk(c: GroundingChunk): (r: Option<GroundingSource>)
    ensures c.maps.Some? ==> r == Some(GroundingSource(StringOr(c.maps.value.title, "Map"), c.maps.value.uri))
    ensures c.maps.None? && c.web.Some? ==> r == Some(GroundingSource(StringOr(c.web.value.title, "Web"), c.web.value.uri))
    ensures c.maps.None? && c.web.None? ==> r.None?
  {
    if c.maps.Some? then Some(GroundingSource(StringOr(c.maps.value.title, "Map"), c.maps.value.uri))
    else if c.web.Some? then Some(GroundingSource(StringOr(c.web.value.title, "Web"), c.web.value.uri))
    else None
  }

  /** The grounding chunks as sources, in order, skipping chunks that are
      neither a map nor a web reference. */
  function ProjectChunks(cs: seq<GroundingChunk>): (r: seq<GroundingSource>)
    ensures |r| <= |cs|
    ensures forall i :: 0 <= i < |r| ==> r[i].title != ""
    ensures forall i :: 0 <= i < |r| ==> exists j :: 0 <= j < |cs| && ProjectChunk(cs[j]) == Some(r[i])
  {
    if |cs| == 0 then []
    else
      var rest := ProjectChunks(cs[1..]);
      assert forall i :: 0 <= i < |rest| ==> exists j :: 0 <= j < |cs| && ProjectChunk(cs[j]) == Some(rest[i]) by {
        forall i | 0 <= i < |rest|
          ensures exists j :: 0 <= j < |cs| && ProjectChunk(cs[j]) == Some(rest[i])
        {
          var j :| 0 <= j < |cs[1..]| && ProjectChunk(cs[1..][j]) == Some(rest[i]);
          assert ProjectChunk(cs[j + 1]) == Some(rest[i]);
        }
      }
      match ProjectChunk(cs[0])
      case None => rest
      case Some(src) => [src] + rest
  }

  /** Projection works chunk by chunk: the sources of a concatenation are
      the sources of each part, in the same order. */
  lemma {:induction false} ProjectChunksAppend(a: seq<GroundingChunk>, b: seq<GroundingChunk>)
    ensures ProjectChunks(a + b) == ProjectChunks(a) + ProjectChunks(b)
    decreases |a|
  {
    if |a| == 0 {
      assert a + b == b;
    } else {
      assert (a + b)[1..] == a[1..] + b;
      ProjectChunksAppend(a[1..], b);
    }
  }

  /** A single chunk contributes its projection, or nothing. */
  lemma ProjectChunksSingle(c: GroundingChunk)
    ensures ProjectChunks([c]) == match ProjectChunk(c) case None => [] case Some(src) => [src]
  {
  }

  /** The deep fetch after the service has answered: it
      never fails; any problem yields exactly `{groundingSources: []}`, and
      success is the parsed object with its sources replaced by the
      projected grounding chunks. */
  function DeepAnalysis(reply: Result<ModelResponse, ServiceError>, parse: Parser): (r: PartialAnalysis)
    ensures r.groundingSources.Some?
    ensures reply.Failure? || IsBlankReply(reply.value.text) || Parsed(reply.value, parse).None? ==>
              r == DeepFallback
    ensures reply.Success? && !IsBlankReply(reply.value.text) && Parsed(reply.value, parse).Some? ==>
              var p := Parsed(reply.value, parse).value;
              && r.(groundingSources := p.groundingSources) == p
              && r.groundingSources == Some(ProjectChunks(reply.value.groundingChunks.GetOr([])))
  {
    match reply
    case Failure(_) => DeepFallback
    case Success(response) =>
      if IsBlankReply(response.text) then DeepFallback
      else
        match Parsed(response, parse)
        case None => DeepFallback
        case Some(p) => p.(groundingSources := Some(ProjectChunks(response.groundingChunks.GetOr([]))))
  }
}
