/**
 * The voice agent's side of the knowledge base (livekit-voice-agent/tool.py): how
 * `check_knowledge_base` turns the search replies into a confidence tier and a filtered list
 * of answers, how `extract_query_tags` lower-cases the tags the language model proposes, and
 * how `create_help_request` finds the caller's phone number among the room's participants.
 * The HTTP calls and the language model are not modelled; their outcomes are parameters.
 */
module VoiceTool {
  import opened Common
  import opened Text
  import Ranking
  import KnowledgeRoutes

  // ---------------------------------------------------------------------------------------
  // Confidence tiers

  datatype ConfidenceTier = High | Medium | Low

  const HighCutoff: real := 0.7
  const MediumCutoff: real := 0.4
  const LowCutoff: real := 0.3

  /** The tier of a reply and the score a result needs to be passed on, from the top score. */
  function ClassifyTier(top: real): (c: (ConfidenceTier, real))
    ensures c.0 == High <==> top >= HighCutoff
    ensures c.0 == Medium <==> MediumCutoff <= top < HighCutoff
    ensures c.0 == Low <==> top < MediumCutoff
    ensures c.0 == High ==> c.1 == HighCutoff
    ensures c.0 == Medium ==> c.1 == MediumCutoff
    ensures c.0 == Low ==> c.1 == LowCutoff
    ensures c.0 != Low ==> c.1 <= top
  {
    if top >= HighCutoff then (High, HighCutoff)
    else if top >= MediumCutoff then (Medium, MediumCutoff)
    else (Low, LowCutoff)
  }

  /** The threshold that goes with each tier. */
  function TierThreshold(tier: ConfidenceTier): real {
    match tier
    case High => HighCutoff
    case Medium => MediumCutoff
    case Low => LowCutoff
  }

  // ---------------------------------------------------------------------------------------
  // Python's round(x, 2)

  /** The integer nearest to `y`, ties going to the even one. */
  function RoundHalfEven(y: real): (n: int)
    ensures -0.5 <= n as real - y <= 0.5
    ensures (n as real - y == 0.5 || y - n as real == 0.5) ==> n % 2 == 0
    ensures n >= y.Floor
  {
    var f := y.Floor;
    var d := y - f as real;
    if d < 0.5 then f
    else if d > 0.5 then f + 1
    else if f % 2 == 0 then f else f + 1
  }

  /** `round(x, 2)`: `x` to the nearest hundredth. */
  function Round2(x: real): (r: real)
    ensures -0.005 <= r - x <= 0.005
  {
    RoundHalfEven(x * 100.0) as real / 100.0
  }

  /** Rounding to hundredths never takes a score below a cutoff that is itself a whole number of
      hundredths, such as 0.7, 0.4 and 0.3. */
  lemma Round2KeepsCutoff(x: real, k: int)
    requires x >= k as real / 100.0
    ensures Round2(x) >= k as real / 100.0
  {
    assert x * 100.0 >= k as real;
    assert (x * 100.0).Floor >= k;
  }

  // ---------------------------------------------------------------------------------------
  // Filtering the results of one search

  /** One element of the `data` array of a search reply, as the agent reads it; an absent key is
      `None`. */
  datatype SearchRow = SearchRow(questionPattern: Option<string>, answer: Option<string>, score: Option<real>,
                                 tags: Option<seq<string>>, exactTagMatch: Option<bool>)

  /** One element of the `results` array the agent hands to the language model. */
  datatype Formatted = Formatted(question: string, answer: string, score: real, hasTags: bool, exactTagMatch: bool)

  /** `float(r.get("similarity_score", 0))`. */
  function ScoreOf(row: SearchRow): real {
    row.score.GetOr(0.0)
  }

  predicate Qualifies(row: SearchRow, threshold: real) {
    ScoreOf(row) >= threshold
  }

  /** The dictionary built for a qualifying row: defaults for absent keys, the score rounded to
      hundredths, and `has_tags` true exactly for a present, non-empty tag list. */
  function Format(row: SearchRow): (f: Formatted)
    ensures f.hasTags <==> row.tags.Some? && row.tags.value != []
    ensures -0.005 <= f.score - ScoreOf(row) <= 0.005
  {
    Formatted(row.questionPattern.GetOr(""), row.answer.GetOr(""), Round2(ScoreOf(row)),
              row.tags.Some? && |row.tags.value| > 0, row.exactTagMatch.GetOr(false))
  }

  /** What the `for` loop appends, row by row: the formatted qualifying rows. */
  function Qualifying(rows: seq<SearchRow>, threshold: real): (f: seq<Formatted>)
    ensures |f| <= |rows|
    decreases |rows|
  {
    if rows == [] then []
    else
      var last := rows[|rows| - 1];
      Qualifying(rows[..|rows| - 1], threshold) + (if Qualifies(last, threshold) then [Format(last)] else [])
  }

  /** The positions of the qualifying rows, in increasing order: an independent description of
      which rows the filter keeps. */
  function KeptPositions(rows: seq<SearchRow>, threshold: real): (r: seq<nat>)
    ensures forall k :: 0 <= k < |r| ==> r[k] < |rows| && Qualifies(rows[r[k]], threshold)
    ensures forall k, l :: 0 <= k < l < |r| ==> r[k] < r[l]
    ensures forall i :: 0 <= i < |rows| && Qualifies(rows[i], threshold) ==> i in r
    ensures rows != [] && Qualifies(rows[0], threshold) ==> r != [] && r[0] == 0
    decreases |rows|
  {
    if rows == [] then []
    else
      var n := |rows| - 1;
      var front := KeptPositions(rows[..n], threshold);
      assert forall i :: 0 <= i < n ==> rows[..n][i] == rows[i];
      front + (if Qualifies(rows[n], threshold) then [n] else [])
  }

  /** The filter keeps exactly the qualifying rows, formatted, in the order the server sent
      them. */
  lemma {:induction false} QualifyingInServerOrder(rows: seq<SearchRow>, threshold: real)
    ensures |Qualifying(rows, threshold)| == |KeptPositions(rows, threshold)|
    ensures forall k :: 0 <= k < |Qualifying(rows, threshold)| ==>
      Qualifying(rows, threshold)[k] == Format(rows[KeptPositions(rows, threshold)[k]])
    decreases |rows|
  {
    if rows != [] {
      var n := |rows| - 1;
      QualifyingInServerOrder(rows[..n], threshold);
      var front := KeptPositions(rows[..n], threshold);
      forall k | 0 <= k < |front| ensures rows[..n][front[k]] == rows[front[k]] {
      }
    }
  }

  /** The loop of `check_knowledge_base` that builds `formatted_results`. */
  method FormatResults(rows: seq<SearchRow>, threshold: real) returns (formatted: seq<Formatted>)
    ensures formatted == Qualifying(rows, threshold)
  {
    formatted := [];
    var i := 0;
    while i < |rows|
      invariant 0 <= i <= |rows|
      invariant formatted == Qualifying(rows[..i], threshold)
    {
      var r := rows[i];
      if ScoreOf(r) >= threshold {
        formatted := formatted + [Format(r)];
      }
      assert rows[..i + 1][..i] == rows[..i];
      i := i + 1;
    }
    assert rows[..i] == rows;
  }

  /** Every result passed on scores at least the tier's threshold, also after rounding. */
  lemma FormattedScoresClearThreshold(rows: seq<SearchRow>, top: real)
    ensures var threshold := ClassifyTier(top).1;
      forall k :: 0 <= k < |Qualifying(rows, threshold)| ==> Qualifying(rows, threshold)[k].score >= threshold
  {
    var threshold := ClassifyTier(top).1;
    var cents := if threshold == HighCutoff then 70 else if threshold == MediumCutoff then 40 else 30;
    assert threshold == cents as real / 100.0;
    QualifyingInServerOrder(rows, threshold);
    var kept := KeptPositions(rows, threshold);
    forall k | 0 <= k < |Qualifying(rows, threshold)| ensures Qualifying(rows, threshold)[k].score >= threshold {
      Round2KeepsCutoff(ScoreOf(rows[kept[k]]), cents);
    }
  }

  /** In the high and medium tiers the top result is always passed on, first; the list of
      results is empty only in the low tier with a top score below 0.3. */
  lemma TopResultKept(rows: seq<SearchRow>)
    requires rows != []
    ensures var (tier, threshold) := ClassifyTier(ScoreOf(rows[0]));
      && (tier != Low ==> Qualifying(rows, threshold) != [] && Qualifying(rows, threshold)[0] == Format(rows[0]))
      && (Qualifying(rows, threshold) == [] ==> tier == Low && ScoreOf(rows[0]) < LowCutoff)
  {
    var (tier, threshold) := ClassifyTier(ScoreOf(rows[0]));
    QualifyingInServerOrder(rows, threshold);
    var kept := KeptPositions(rows, threshold);
  }

  // ---------------------------------------------------------------------------------------
  // The two search attempts

  /** The outcome of one `GET /api/knowledge-base/search`: an exception (connection error,
      timeout, unreadable body), or a status with the `success`, `found` and `data` fields. */
  datatype HttpOutcome = Raised | Response(status: int, success: bool, found: bool, data: seq<SearchRow>)

  /** What `check_knowledge_base` returns: `"not_found"`, or the JSON with `found`, `count`,
      `results` and `confidence_tier`. */
  datatype ToolReply = NotFound | Found(count: nat, results: seq<Formatted>, tier: ConfidenceTier)

  const ResultsConsidered: int := 5

  /** The answer one successful search reply gives, or `None` when it has no data or no result
      clears the tier's threshold. */
  function AttemptAnswer(outcome: HttpOutcome): (a: Option<ToolReply>)
    ensures a.Some? ==> a.value.Found? && a.value.count == |a.value.results| && 1 <= a.value.count <= ResultsConsidered
    ensures a.Some? ==> outcome.Response? && outcome.status == 200 && outcome.success && outcome.found && outcome.data != []
  {
    if outcome.Response? && outcome.status == 200 && outcome.success && outcome.found && |outcome.data| > 0 then
      var results := Ranking.Take(outcome.data, ResultsConsidered);
      var (tier, threshold) := ClassifyTier(ScoreOf(results[0]));
      var formatted := Qualifying(results, threshold);
      if |formatted| > 0 then Some(Found(|formatted|, formatted, tier)) else None
    else None
  }

  /** The whole tool: the first search, then (only when the first gave a 200 reply but nothing to
      pass on, and the language model proposed some tags) the search with those tags. */
  function KnowledgeReply(first: HttpOutcome, tags: seq<string>, second: HttpOutcome): ToolReply {
    if first.Raised? || first.status != 200 then NotFound
    else if AttemptAnswer(first).Some? then AttemptAnswer(first).value
    else if tags == [] then NotFound
    else AttemptAnswer(second).GetOr(NotFound)
  }

  /** `check_knowledge_base`: the result-filter loop run on each search reply. */
  method CheckKnowledgeBase(first: HttpOutcome, tags: seq<string>, second: HttpOutcome) returns (reply: ToolReply)
    ensures reply == KnowledgeReply(first, tags, second)
  {
    if first.Raised? || first.status != 200 {
      return NotFound;
    }
    reply := Attempt(first);
    if reply.NotFound? && tags != [] {
      reply := Attempt(second);
    }
  }

  /** One search reply through the tier classifier and the filter loop. */
  method Attempt(outcome: HttpOutcome) returns (reply: ToolReply)
    ensures reply == AttemptAnswer(outcome).GetOr(NotFound)
  {
    if outcome.Response? && outcome.status == 200 && outcome.success && outcome.found && |outcome.data| > 0 {
      var results := Ranking.Take(outcome.data, ResultsConsidered);
      var (tier, threshold) := ClassifyTier(ScoreOf(results[0]));
      var formatted := FormatResults(results, threshold);
      reply := if |formatted| > 0 then Found(|formatted|, formatted, tier) else NotFound;
    } else {
      reply := NotFound;
    }
  }

  /** A found reply counts its results, carries between one and five of them, and every one of
      them clears the threshold of the tier it reports. */
  lemma FoundReplyShape(first: HttpOutcome, tags: seq<string>, second: HttpOutcome)
    ensures var reply := KnowledgeReply(first, tags, second);
      reply.Found? ==> && reply.count == |reply.results| && 1 <= |reply.results| <= ResultsConsidered
                       && forall k :: 0 <= k < |reply.results| ==> reply.results[k].score >= TierThreshold(reply.tier)
  {
    var reply := KnowledgeReply(first, tags, second);
    if reply.Found? {
      var outcome := if AttemptAnswer(first).Some? then first else second;
      assert AttemptAnswer(outcome) == Some(reply);
      var results := Ranking.Take(outcome.data, ResultsConsidered);
      var top := ScoreOf(results[0]);
      FormattedScoresClearThreshold(results, top);
      assert ClassifyTier(top).1 == TierThreshold(ClassifyTier(top).0);
    }
  }

  /** The tool answers `"not_found"` when the first search fails or answers with another status,
      and when neither attempt has anything to pass on; the second search is consulted only when
      the first gave a 200 reply with nothing to pass on and there are tags to send. */
  lemma NotFoundPaths(first: HttpOutcome, tags: seq<string>, second: HttpOutcome, second': HttpOutcome)
    ensures first.Raised? || first.status != 200 ==> KnowledgeReply(first, tags, second) == NotFound
    ensures AttemptAnswer(first).None? && (tags == [] || AttemptAnswer(second).None?) ==>
      KnowledgeReply(first, tags, second) == NotFound
    ensures AttemptAnswer(first).Some? || tags == [] ==>
      KnowledgeReply(first, tags, second) == KnowledgeReply(first, tags, second')
    ensures first.Response? && first.status == 200 && AttemptAnswer(first).None? && tags != [] ==>
      KnowledgeReply(first, tags, second) == AttemptAnswer(second).GetOr(NotFound)
  {
  }

  /** The query string of the second search: the question and the tags joined by `','`. */
  function SecondSearchQuery(question: string, tags: seq<string>): KnowledgeRoutes.SearchQuery {
    KnowledgeRoutes.SearchQuery(Some(question), None, Some(Join(tags, ',')), None)
  }

  /** The server decodes the tags of the second search as the agent extracted them, as long as
      each is non-empty, lower-case, free of surrounding white space and of commas. */
  lemma SecondSearchCarriesTags(question: string, tags: seq<string>)
    requires question != [] && tags != []
    requires forall k :: 0 <= k < |tags| ==> tags[k] != [] && IsLowerStr(tags[k]) && Trim(tags[k]) == tags[k] && Excludes(tags[k], ',')
    ensures KnowledgeRoutes.DecodeSearchQuery(SecondSearchQuery(question, tags)).Some?
    ensures KnowledgeRoutes.DecodeSearchQuery(SecondSearchQuery(question, tags)).value.extractedTags == Some(tags)
    ensures KnowledgeRoutes.DecodeSearchQuery(SecondSearchQuery(question, tags)).value.question == question
  {
    KnowledgeRoutes.ExtractedTagsRoundTrip(tags);
  }

  // ---------------------------------------------------------------------------------------
  // Tag extraction

  /** The outcome of the chat-completion call: an exception, or a status with the message
      content. */
  datatype LlmOutcome = LlmRaised | LlmResponse(status: int, content: LlmContent)

  /** The message content parsed as JSON: not JSON, a list (each element as Python's `str` writes
      it), or some other JSON value. */
  datatype LlmContent = NotJson | JsonList(items: seq<string>) | OtherJson

  /** `extract_query_tags`: no API key or any failure gives no tags; a list gives its elements
      lower-cased, one for one. */
  function ExtractQueryTags(apiKey: string, outcome: LlmOutcome): (tags: seq<string>)
    ensures forall k :: 0 <= k < |tags| ==> IsLowerStr(tags[k])
    ensures apiKey == [] ==> tags == []
    ensures apiKey != [] && outcome.LlmResponse? && outcome.status == 200 && outcome.content.JsonList? ==>
      |tags| == |outcome.content.items| &&
      forall k :: 0 <= k < |tags| ==> tags[k] == LowerStr(outcome.content.items[k])
    ensures !(outcome.LlmResponse? && outcome.status == 200 && outcome.content.JsonList?) ==> tags == []
  {
    if apiKey == [] then []
    else match outcome
      case LlmResponse(200, JsonList(items)) =>
        seq(|items|, k requires 0 <= k < |items| => LowerCase(items[k]))
      case _ => []
  }

  function LowerCase(s: string): (r: string)
    ensures IsLowerStr(r) && r == LowerStr(s)
  {
    LowerStrProperties(s);
    LowerStr(s)
  }

  // ---------------------------------------------------------------------------------------
  // The caller's phone number

  /** A remote participant of the room; `None` when it has no `identity`. */
  datatype Participant = Participant(identity: Option<string>)

  const SipPrefix: string := "sip_"
  const UnknownPhone: string := "unknown"

  predicate IsSipParticipant(p: Participant) {
    p.identity.Some? && StartsWith(p.identity.value, SipPrefix)
  }

  /** `identity.replace("sip_", "") or "unknown"`. */
  function PhoneFromIdentity(identity: string): (phone: string)
    ensures phone != []
    ensures phone == UnknownPhone || phone == RemoveAll(identity, SipPrefix)
  {
    var stripped := RemoveAll(identity, SipPrefix);
    if stripped == [] then UnknownPhone else stripped
  }

  /** The phone of the first SIP participant, or `"unknown"`. */
  function PhoneOf(participants: seq<Participant>): (phone: string)
    ensures phone != []
    ensures (forall k :: 0 <= k < |participants| ==> !IsSipParticipant(participants[k])) ==> phone == UnknownPhone
    decreases |participants|
  {
    if participants == [] then UnknownPhone
    else if IsSipParticipant(participants[0]) then PhoneFromIdentity(participants[0].identity.value)
    else PhoneOf(participants[1..])
  }

  /** The loop of `create_help_request` over the remote participants, with its `break`. */
  method ExtractPhone(participants: seq<Participant>) returns (phone: string)
    ensures phone == PhoneOf(participants)
  {
    phone := UnknownPhone;
    var i := 0;
    while i < |participants|
      invariant 0 <= i <= |participants|
      invariant PhoneOf(participants) == PhoneOf(participants[i..])
      invariant phone == UnknownPhone
    {
      var p := participants[i];
      if p.identity.Some? && StartsWith(p.identity.value, SipPrefix) {
        phone := PhoneFromIdentity(p.identity.value);
        break;
      }
      assert participants[i..][1..] == participants[i + 1..];
      i := i + 1;
    }
  }

  /** The phone is the identity after the first SIP participant's prefix when the rest holds
      no further `"sip_"`; the first SIP participant wins over later ones. */
  lemma PhoneOfSipCaller(before: seq<Participant>, number: string, after: seq<Participant>)
    requires forall k :: 0 <= k < |before| ==> !IsSipParticipant(before[k])
    requires number != [] && !Contains(number, SipPrefix)
    ensures PhoneOf(before + [Participant(Some(SipPrefix + number))] + after) == number
    decreases |before|
  {
    var all := before + [Participant(Some(SipPrefix + number))] + after;
    if before == [] {
      assert all[0] == Participant(Some(SipPrefix + number));
      RemoveAllLeading(SipPrefix, number);
      RemoveAllNoOccurrence(number, SipPrefix);
    } else {
      assert all[1..] == before[1..] + [Participant(Some(SipPrefix + number))] + after;
      PhoneOfSipCaller(before[1..], number, after);
    }
  }

  /** Every occurrence of `"sip_"` is removed, not just the prefix, and removing one can form
      another: the identity `"sip_sisip_p_"` gives the phone `"sip_"`, and `"sip_"` alone gives
      `"unknown"`. */
  lemma PhoneReplaceRemovesEveryOccurrence()
    ensures PhoneOf([Participant(Some("sip_sisip_p_"))]) == "sip_"
    ensures PhoneOf([Participant(Some("sip_"))]) == UnknownPhone
    ensures PhoneOf([Participant(None), Participant(Some("+15550100"))]) == UnknownPhone
  {
    assert StartsWith("sip_sisip_p_", SipPrefix);
    assert RemoveAll("sip_sisip_p_", SipPrefix) == "sip_" by {
      assert "sip_sisip_p_"[..4] == SipPrefix;
      assert "sip_sisip_p_"[4..] == "sisip_p_";
      assert "sisip_p_"[..4][2] != SipPrefix[2];
      assert "sisip_p_"[1..] == "isip_p_";
      assert "isip_p_"[..4][0] != SipPrefix[0];
      assert "isip_p_"[1..] == "sip_p_";
      assert "sip_p_"[..4] == SipPrefix;
      assert "sip_p_"[4..] == "p_";
      assert RemoveAll("p_", SipPrefix) == "p_";
    }
    assert RemoveAll("sip_", SipPrefix) == [] by {
      assert "sip_"[4..] == [];
    }
    assert !StartsWith("+15550100", SipPrefix);
  }
}
