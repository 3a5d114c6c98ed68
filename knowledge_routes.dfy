/**
 * The HTTP layer of backend/api/routes/knowledge-base.js: decoding of the query string of the
 * search and list endpoints, the `found`/`count` shape of the search reply, and the status
 * code each route answers with, including the codes the application-wide error handler of
 * backend/api/server.js assigns to errors the routes pass on.
 */
module KnowledgeRoutes {
  import opened Common
  import opened Text
  import opened JsNumbers
  import opened Ranking
  import opened Schema
  import opened KnowledgeSearch
  import opened KnowledgeService

  const DefaultSearchLimit: int := 5
  const DefaultThreshold: real := 0.3
  const DefaultListLimit: int := 100

  // ---------------------------------------------------------------------------------------
  // Search parameters

  /** `Math.min(Math.max(1, parseInt(limit) || 5), 20)`. */
  function SearchLimit(limit: Option<string>): (r: int)
    ensures 1 <= r <= MaxLimit
  {
    CappedLimit(IntOr(ParseInt(limit), DefaultSearchLimit))
  }

  /** A missing, zero or unreadable limit gives 5; a limit written in decimal is clamped to
      [1, 20]. */
  lemma SearchLimitDecoded(n: int)
    ensures SearchLimit(None) == DefaultSearchLimit
    ensures SearchLimit(Some(IntString(n))) ==
      (if n == 0 then DefaultSearchLimit else if n < 1 then 1 else if n > MaxLimit then MaxLimit else n)
  {
    ParseRoundTrip(n);
  }

  /** `parseFloat(threshold) || 0.3`. */
  function Threshold(threshold: Option<string>): (r: Num)
    ensures r != NaN && r != Finite(0.0)
  {
    NumOr(ParseFloat(threshold), Finite(DefaultThreshold))
  }

  /** A missing, zero or unreadable threshold gives 0.3; an integer written in decimal is taken
      as it is. */
  lemma ThresholdDecoded(n: int)
    ensures Threshold(None) == Finite(DefaultThreshold)
    ensures Threshold(Some(IntString(n))) == (if n == 0 then Finite(DefaultThreshold) else Finite(n as real))
  {
    ParseRoundTrip(n);
  }

  /** One raw tag after `tag.trim().toLowerCase()`: lower-case, already trimmed, and empty
      exactly when the raw tag is blank. */
  function CleanTag(raw: string): (r: string)
    ensures IsLowerStr(r) && Trim(r) == r
    ensures r == [] <==> IsBlank(raw)
  {
    LowerStrProperties(Trim(raw));
    CleanTagTrimmed(raw);
    CleanTagBlank(raw);
    LowerStr(Trim(raw))
  }

  lemma CleanTagTrimmed(raw: string)
    ensures Trim(LowerStr(Trim(raw))) == LowerStr(Trim(raw))
  {
    TrimCharacterised(raw);
    LowerKeepsEnds(Trim(raw));
    TrimOfTrimmed(LowerStr(Trim(raw)));
  }

  lemma CleanTagBlank(raw: string)
    ensures LowerStr(Trim(raw)) == [] <==> IsBlank(raw)
  {
    TrimCharacterised(raw);
  }

  /** Lower-casing keeps a string free of white space at both ends. */
  lemma LowerKeepsEnds(t: string)
    requires t == [] || (!IsJsSpace(t[0]) && !IsJsSpace(t[|t| - 1]))
    ensures var l := LowerStr(t); l == [] || (!IsJsSpace(l[0]) && !IsJsSpace(l[|l| - 1]))
  {
    if t != [] {
      LowerKeepsSpace(t[0]);
      LowerKeepsSpace(t[|t| - 1]);
    }
  }

  /** `.map(tag => tag.trim().toLowerCase()).filter(tag => tag.length > 0)`. */
  function CleanTags(parts: seq<string>): (r: seq<string>)
    ensures |r| <= |parts|
    ensures forall k :: 0 <= k < |r| ==> r[k] != [] && IsLowerStr(r[k]) && Trim(r[k]) == r[k]
    decreases |parts|
  {
    if parts == [] then []
    else
      var c := CleanTag(parts[0]);
      (if c != [] then [c] else []) + CleanTags(parts[1..])
  }

  /** `extracted_tags ? extracted_tags.split(',')... : null`: absent or empty gives null. */
  function ParseExtractedTags(extracted: Option<string>): (r: Option<seq<string>>)
    ensures r.None? <==> !Present(extracted)
    ensures r.Some? ==> forall k :: 0 <= k < |r.value| ==> r.value[k] != [] && IsLowerStr(r.value[k]) && Trim(r.value[k]) == r.value[k]
  {
    if !Present(extracted) then None else Some(CleanTags(Split(extracted.value, ',')))
  }

  /** The route reads back a comma-joined list of tags (as the voice agent sends them) as
      those tags trimmed, lower-cased and without the blank ones, provided no tag contains a
      comma; tags that are already clean come back unchanged. */
  lemma ExtractedTagsRoundTrip(tags: seq<string>)
    requires |tags| >= 1 && forall k :: 0 <= k < |tags| ==> Excludes(tags[k], ',')
    ensures Join(tags, ',') != [] ==> ParseExtractedTags(Some(Join(tags, ','))) == Some(CleanTags(tags))
    ensures (forall k :: 0 <= k < |tags| ==> tags[k] != [] && IsLowerStr(tags[k]) && Trim(tags[k]) == tags[k]) ==>
      ParseExtractedTags(Some(Join(tags, ','))) == Some(tags)
  {
    SplitJoin(tags, ',');
    if forall k :: 0 <= k < |tags| ==> tags[k] != [] && IsLowerStr(tags[k]) && Trim(tags[k]) == tags[k] {
      JoinStartsWithFirst(tags, ',');
      assert forall k :: 0 <= k < |tags| ==> IsCleanTag(tags[k]);
      CleanTagsOfCleanTags(tags);
    }
  }

  lemma JoinStartsWithFirst(parts: seq<string>, sep: char)
    requires |parts| >= 1
    ensures |Join(parts, sep)| >= |parts[0]|
  {
  }

  /** A tag as the route's cleaning leaves it: non-empty, lower-case and trimmed. */
  predicate IsCleanTag(tag: string) {
    tag != [] && IsLowerStr(tag) && Trim(tag) == tag
  }

  lemma {:induction false} CleanTagsOfCleanTags(tags: seq<string>)
    requires forall k :: 0 <= k < |tags| ==> IsCleanTag(tags[k])
    ensures CleanTags(tags) == tags
    decreases |tags|
  {
    if tags != [] {
      var rest := tags[1..];
      assert [tags[0]] + rest == tags;
      assert forall k :: 0 <= k < |rest| ==> IsCleanTag(rest[k]) by {
        forall k | 0 <= k < |rest| ensures IsCleanTag(rest[k]) {
          assert rest[k] == tags[k + 1];
        }
      }
      CleanTagsOfCleanTags(rest);
      CleanTagOfClean(tags[0]);
    }
  }

  lemma CleanTagOfClean(tag: string)
    requires IsCleanTag(tag)
    ensures CleanTag(tag) == tag
  {
    LowerStrProperties(tag);
  }

  /** The query string of `GET /api/knowledge-base/search`. */
  datatype SearchQuery = SearchQuery(q: Option<string>, threshold: Option<string>, extractedTags: Option<string>, limit: Option<string>)

  /** The arguments the route hands to the service. */
  datatype SearchArgs = SearchArgs(question: string, threshold: Num, extractedTags: Option<seq<string>>, limit: int)

  /** The route's decoding; `None` is the 400 reply for a missing or empty `q`. */
  function DecodeSearchQuery(query: SearchQuery): (r: Option<SearchArgs>)
    ensures r.None? <==> !Present(query.q)
    ensures r.Some? ==> r.value.question == query.q.value && 1 <= r.value.limit <= MaxLimit
    ensures r.Some? ==> r.value.threshold != NaN && r.value.threshold != Finite(0.0)
    ensures r.Some? ==> (r.value.extractedTags.None? <==> !Present(query.extractedTags))
  {
    if !Present(query.q) then None
    else Some(SearchArgs(query.q.value, Threshold(query.threshold), ParseExtractedTags(query.extractedTags), SearchLimit(query.limit)))
  }

  /** The JSON body of a search reply. */
  datatype SearchReply = MissingQuestion | Matches(found: bool, count: nat, data: seq<Scored>)

  function SearchStatus(reply: SearchReply): int {
    if reply.MissingQuestion? then 400 else 200
  }

  /** `found` is false with `count` 0 exactly for an empty result; otherwise `count` is the
      number of entries returned. */
  function ShapeSearchReply(entries: seq<Scored>): (r: SearchReply)
    ensures r.Matches? && r.data == entries && r.count == |entries|
    ensures !r.found <==> entries == []
    ensures !r.found ==> r.count == 0
  {
    if |entries| == 0 then Matches(false, 0, []) else Matches(true, |entries|, entries)
  }

  /** `GET /api/knowledge-base/search`: without `q` it answers 400 and leaves the database as it
      was; otherwise it answers what the search returns. */
  method HandleSearch(db: Database, query: SearchQuery, sig: Signals) returns (reply: SearchReply)
    requires db.Valid()
    modifies db
    ensures db.Valid()
    ensures !Present(query.q) ==> reply == MissingQuestion && SearchStatus(reply) == 400
    ensures !Present(query.q) ==> db.knowledge == old(db.knowledge) && db.requests == old(db.requests) && db.nextId == old(db.nextId)
    ensures Present(query.q) ==>
      var args := DecodeSearchQuery(query).value;
      var entries := SearchResults(old(db.knowledge), Some(args.question), args.threshold, args.extractedTags, args.limit, sig);
      && reply == ShapeSearchReply(entries)
      && db.knowledge == (if entries == [] then old(db.knowledge) else BumpUsage(old(db.knowledge), entries[0].entry.id))
  {
    var args := DecodeSearchQuery(query);
    if args.None? {
      return MissingQuestion;
    }
    var entries := SearchKnowledgeBase(db, Some(args.value.question), args.value.threshold,
                                       args.value.extractedTags, args.value.limit, sig);
    reply := ShapeSearchReply(entries);
  }

  // ---------------------------------------------------------------------------------------
  // List parameters

  datatype ListArgs = ListArgs(limit: int, offset: int, activeOnly: bool)

  /** `{limit: parseInt(limit) || 100, offset: parseInt(offset) || 0, active_only: active_only !== 'false'}`. */
  function DecodeListQuery(limit: Option<string>, offset: Option<string>, activeOnly: Option<string>): (r: ListArgs)
    ensures !r.activeOnly <==> activeOnly == Some("false")
    ensures limit.None? ==> r.limit == DefaultListLimit
    ensures offset.None? ==> r.offset == 0
  {
    ListArgs(IntOr(ParseInt(limit), DefaultListLimit), IntOr(ParseInt(offset), 0), activeOnly != Some("false"))
  }

  /** Decimal integers are taken as they are (zero falls back to the default), so a negative
      limit or offset reaches the database, which refuses it, and the error handler answers 500. */
  lemma ListQueryDecoded(n: int, m: int)
    ensures DecodeListQuery(Some(IntString(n)), Some(IntString(m)), None) ==
      ListArgs(if n == 0 then DefaultListLimit else n, m, true)
    ensures n < 0 ==> ListStatus(ListKnowledgeRoute([], [], Some(IntString(n)), None, None)) == 500
  {
    ParseRoundTrip(n);
    ParseRoundTrip(m);
  }

  /** `GET /api/knowledge-base`. */
  function ListKnowledgeRoute(kt: seq<KnowledgeEntry>, rt: seq<HelpRequest>,
                              limit: Option<string>, offset: Option<string>, activeOnly: Option<string>)
    : (r: Result<seq<Listed>, KbError>)
    ensures var a := DecodeListQuery(limit, offset, activeOnly);
      r == ListKnowledge(kt, rt, a.limit, a.offset, a.activeOnly)
  {
    var a := DecodeListQuery(limit, offset, activeOnly);
    ListKnowledge(kt, rt, a.limit, a.offset, a.activeOnly)
  }

  function ListStatus(r: Result<seq<Listed>, KbError>): int {
    if r.Ok? then 200 else ErrorHandlerStatus(r.error)
  }

  // ---------------------------------------------------------------------------------------
  // Status codes

  /** The application-wide error handler: Postgres error 23505 answers 409, anything else 500. */
  function ErrorHandlerStatus(e: KbError): (code: int)
    ensures code == 409 <==> e == UniqueViolation
    ensures code == 409 || code == 500
  {
    if e == UniqueViolation then 409 else 500
  }

  /** `GET /api/knowledge-base/:id`. */
  function GetByIdStatus(entry: Option<KnowledgeEntry>): int {
    if entry.None? then 404 else 200
  }

  /** `POST /api/knowledge-base`: the route refuses a missing pattern or answer with 400 before
      calling the service, answers 201 with the created row, and 409 on a duplicate pattern. */
  function CreateStatus(pattern: Option<string>, answer: Option<string>, outcome: Result<KnowledgeEntry, KbError>): int {
    if !Present(pattern) || !Present(answer) then 400
    else if outcome.Ok? then 201
    else if outcome.error == UniqueViolation then 409
    else ErrorHandlerStatus(outcome.error)
  }

  /** The route's `tags || []`. */
  function RouteTags(tags: Option<seq<string>>): seq<string> {
    tags.GetOr([])
  }

  /** The create route answers 400 exactly when the pattern or the answer is missing or empty,
      409 exactly when the trimmed pattern is taken, and 201 otherwise; the service's own check
      is never what refuses the request. */
  lemma CreateRouteStatuses(t: seq<KnowledgeEntry>, nextId: Id, pattern: Option<string>, answer: Option<string>,
                            tags: Option<seq<string>>, now: Time)
    ensures var s := CreateStatus(pattern, answer, CreateOutcome(t, nextId, pattern, answer, Some(RouteTags(tags)), now));
      && (s == 400 <==> !Present(pattern) || !Present(answer))
      && (s == 409 <==> Present(pattern) && Present(answer) && exists e :: e in t && e.questionPattern == Trim(pattern.value))
      && (s == 201 <==> Present(pattern) && Present(answer) && forall e :: e in t ==> e.questionPattern != Trim(pattern.value))
    ensures Present(pattern) && Present(answer) ==>
      CreateOutcome(t, nextId, pattern, answer, Some(RouteTags(tags)), now) != Err(MissingFields)
  {
  }

  /** `PATCH /api/knowledge-base/:id`. */
  function UpdateStatus(outcome: Result<KnowledgeEntry, KbError>): int {
    if outcome.Ok? then 200
    else if outcome.error == NotFound then 404
    else if outcome.error == NoValidFields then 400
    else ErrorHandlerStatus(outcome.error)
  }

  /** The update route answers 400 exactly when the body names no allowed field with a defined
      value, 500 exactly when such a value is not of its column's kind, 404 exactly when the
      body is acceptable and the id is unknown, and, on a valid table, 409 exactly when the id
      is known and the body sets the pattern to one another row holds; 200 otherwise. */
  lemma UpdateRouteStatuses(t: seq<KnowledgeEntry>, nextId: Id, id: Id, updates: seq<(string, Value)>, now: Time)
    ensures UpdateStatus(UpdateOutcome(t, id, updates, now)) == 400 <==>
      forall k :: 0 <= k < |updates| ==> updates[k].0 !in AllowedFields || updates[k].1 == Undefined
    ensures var a := AllowedAssignments(updates);
      UpdateStatus(UpdateOutcome(t, id, updates, now)) == 500 <==> a != [] && !Assignable(a)
    ensures var a := AllowedAssignments(updates);
      UpdateStatus(UpdateOutcome(t, id, updates, now)) == 404 <==> a != [] && Assignable(a) && forall e :: e in t ==> e.id != id
    ensures var a := AllowedAssignments(updates);
      KnowledgeTableValid(t, nextId) ==>
        (UpdateStatus(UpdateOutcome(t, id, updates, now)) == 409 <==>
           a != [] && Assignable(a) && (exists e :: e in t && e.id == id) && NewPatternTaken(t, id, a))
    ensures var a := AllowedAssignments(updates);
      KnowledgeTableValid(t, nextId) ==>
        (UpdateStatus(UpdateOutcome(t, id, updates, now)) == 200 <==>
           a != [] && Assignable(a) && (exists e :: e in t && e.id == id) && !NewPatternTaken(t, id, a))
  {
    var o := UpdateOutcome(t, id, updates, now);
    var a := AllowedAssignments(updates);
    assert o.Err? ==> o.error in {NoValidFields, DbRejected, NotFound, UniqueViolation};
    if KnowledgeTableValid(t, nextId) {
      UpdateConflict(t, nextId, id, updates, now);
    }
  }

  /** `DELETE /api/knowledge-base/:id`. */
  function DeleteStatus(outcome: Result<KnowledgeEntry, KbError>): int {
    if outcome.Ok? then 200
    else if outcome.error == NotFound then 404
    else ErrorHandlerStatus(outcome.error)
  }

  /** The delete route answers 404 exactly for an unknown id and 200 otherwise; reading the
      same id afterwards still answers 200. */
  lemma DeleteRouteStatuses(t: seq<KnowledgeEntry>, nextId: Id, id: Id, now: Time)
    requires KnowledgeTableValid(t, nextId)
    ensures DeleteStatus(DeleteOutcome(t, id, now)) == 404 <==> GetByIdStatus(GetKnowledgeById(t, id)) == 404
    ensures DeleteStatus(DeleteOutcome(t, id, now)) == 200 ==>
      GetByIdStatus(GetKnowledgeById(t[FindEntry(t, id).value := DeleteOutcome(t, id, now).value], id)) == 200
  {
    if DeleteOutcome(t, id, now).Ok? {
      SoftDeletedIsHidden(t, nextId, id, now, None, Finite(DefaultThreshold), None, DefaultSearchLimit,
                          Signals((a, b) => 0.0, (a, b) => 0.0, (a, b) => 0.0, (a, b) => false));
    }
  }
}
