/**
 * The help-request lifecycle of backend/api/services/helpRequest.service.js. A request is
 * created `pending` with a deadline; a supervisor's answer resolves it and teaches the
 * knowledge base in one transaction; a periodic sweep marks overdue pending requests
 * `unresolved`. Both end states are terminal.
 */
module HelpRequestService {
  import opened Common
  import opened Text
  import opened JsNumbers
  import opened Ranking
  import opened Schema
  import opened KnowledgeSearch
  import opened KnowledgeService

  /** Why a help-request operation throws. */
  datatype HrError =
    | PhoneOrQuestionMissing       // "customer_phone and question are required"
    | EmptyAnswer                  // "Answer cannot be empty"
    | RequestNotFound              // "Help request not found"
    | NotPending(status: Status)   // "Cannot respond to request with status: ..."
    | TimedOut                     // "Request has already timed out and cannot be answered"
    | WindowRejected               // a negative LIMIT or OFFSET

  const DefaultTimeoutMinutes: int := 30

  // ---------------------------------------------------------------------------------------
  // Creation

  /** `parseInt(process.env.REQUEST_TIMEOUT_MINUTES) || 30`. */
  function TimeoutMinutes(setting: Option<string>): (m: int)
    ensures m != 0
  {
    IntOr(ParseInt(setting), DefaultTimeoutMinutes)
  }

  /** The setting falls back to 30 minutes when it is missing, empty or not a number. */
  lemma TimeoutMinutesDefaults()
    ensures TimeoutMinutes(None) == DefaultTimeoutMinutes
    ensures TimeoutMinutes(Some("")) == DefaultTimeoutMinutes
    ensures TimeoutMinutes(Some("soon")) == DefaultTimeoutMinutes
  {
    assert TrimStart("") == "";
    assert TrimStart("soon") == "soon";
    assert DigitRun("soon", 10) == 0;
  }

  /** An integer written in decimal is taken as it is, except that zero falls back to 30. */
  lemma TimeoutMinutesOfInteger(n: int)
    ensures TimeoutMinutes(Some(IntString(n))) == (if n == 0 then DefaultTimeoutMinutes else n)
  {
    ParseRoundTrip(n);
  }

  /** What `createHelpRequest` inserts into a table whose next id is `nextId`, or the error it
      throws: a pending row whose deadline lies `TimeoutMinutes(setting)` minutes after `now`. */
  function CreateRequestOutcome(nextId: Id, phone: Option<string>, question: Option<string>, callId: Option<string>,
                                confidence: Option<real>, setting: Option<string>, now: Time)
    : (r: Result<HelpRequest, HrError>)
    ensures r.Err? <==> !Present(phone) || !Present(question)
    ensures r.Err? ==> r.error == PhoneOrQuestionMissing
    ensures r.Ok? ==>
      && r.value.id == nextId && r.value.status == Pending
      && r.value.customerPhone == phone.value && r.value.question == question.value
      && r.value.callId == callId && r.value.agentConfidence == confidence
      && r.value.createdAt == now
      && r.value.timeoutAt == Some(now + TimeoutMinutes(setting) * SecondsPerMinute)
      && r.value.resolvedAt.None? && r.value.supervisorResponse.None?
  {
    if !Present(phone) || !Present(question) then Err(PhoneOrQuestionMissing)
    else Ok(HelpRequest(nextId, phone.value, question.value, Pending, callId, confidence,
                        Some(now + TimeoutMinutes(setting) * SecondsPerMinute), now, None, None))
  }

  /** `createHelpRequest({customer_phone, question, call_id, agent_confidence})`. */
  method CreateHelpRequest(db: Database, phone: Option<string>, question: Option<string>, callId: Option<string>,
                           confidence: Option<real>, setting: Option<string>, now: Time)
    returns (r: Result<HelpRequest, HrError>)
    requires db.Valid()
    modifies db
    ensures db.Valid()
    ensures r == CreateRequestOutcome(old(db.nextId), phone, question, callId, confidence, setting, now)
    ensures r.Ok? ==> db.requests == old(db.requests) + [r.value] && db.nextId == old(db.nextId) + 1
    ensures r.Err? ==> db.requests == old(db.requests) && db.nextId == old(db.nextId)
    ensures db.knowledge == old(db.knowledge)
  {
    r := CreateRequestOutcome(db.nextId, phone, question, callId, confidence, setting, now);
    if r.Ok? {
      db.requests := db.requests + [r.value];
      db.nextId := db.nextId + 1;
    }
  }

  // ---------------------------------------------------------------------------------------
  // Reads

  /** `getHelpRequestById(id)`: the row with that id, or null. */
  function GetHelpRequestById(rt: seq<HelpRequest>, id: Id): (r: Option<HelpRequest>)
    ensures r.Some? ==> r.value in rt && r.value.id == id
    ensures r.None? <==> forall q :: q in rt ==> q.id != id
  {
    match FindRequest(rt, id)
    case None => None
    case Some(i) => Some(rt[i])
  }

  /** The rows with the given status, or all rows, in storage order. */
  function WithStatus(rt: seq<HelpRequest>, status: Option<Status>): (r: seq<HelpRequest>)
    ensures |r| <= |rt|
    ensures forall q :: q in r <==> q in rt && (status.Some? ==> q.status == status.value)
    decreases |rt|
  {
    if rt == [] then []
    else (if status.None? || rt[0].status == status.value then [rt[0]] else []) + WithStatus(rt[1..], status)
  }

  /** `ORDER BY created_at DESC`. */
  function NewestFirst(q: HelpRequest): Rank {
    Rank(q.createdAt as real, 0)
  }

  /** `getHelpRequests({status, limit, offset})`: Postgres rejects a negative LIMIT or OFFSET. */
  function GetHelpRequests(rt: seq<HelpRequest>, status: Option<Status>, limit: int, offset: int)
    : (r: Result<seq<HelpRequest>, HrError>)
    ensures r.Err? <==> limit < 0 || offset < 0
    ensures r.Ok? ==> |r.value| <= limit
  {
    if limit < 0 || offset < 0 then Err(WindowRejected)
    else Ok(Window(SortDesc(WithStatus(rt, status), NewestFirst), offset, limit))
  }

  /** The listing holds rows of the table with the requested status, newest first, and with no
      offset and a limit covering the table, all of them. */
  lemma GetHelpRequestsCorrect(rt: seq<HelpRequest>, status: Option<Status>, limit: int, offset: int)
    requires limit >= 0 && offset >= 0
    ensures var r := GetHelpRequests(rt, status, limit, offset).value;
      && SortedBy(r, NewestFirst)
      && (forall k :: 0 <= k < |r| ==> r[k] in rt && (status.Some? ==> r[k].status == status.value))
      && (offset == 0 && limit >= |rt| ==> forall q :: q in rt && (status.Some? ==> q.status == status.value) ==> q in r)
  {
    var l := WithStatus(rt, status);
    var s := SortDesc(l, NewestFirst);
    SortDescCorrect(l, NewestFirst);
    var r := GetHelpRequests(rt, status, limit, offset).value;
    forall k | 0 <= k < |r| ensures r[k] in l {
      assert r[k] == s[offset + k];
      SortDescMembers(l, NewestFirst, s[offset + k]);
    }
    forall i, j | 0 <= i < j < |r| ensures Outranks(NewestFirst(r[i]), NewestFirst(r[j])) {
      assert r[i] == s[offset + i] && r[j] == s[offset + j];
    }
    if offset == 0 && limit >= |rt| {
      assert r == s;
      forall q | q in rt && (status.Some? ==> q.status == status.value) ensures q in r {
        SortDescMembers(l, NewestFirst, q);
      }
    }
  }

  datatype RequestStats = RequestStats(pendingCount: nat, resolvedCount: nat, timeoutCount: nat, totalCount: nat)

  /** `getStatistics()` without the average resolution time. */
  function GetStatistics(rt: seq<HelpRequest>): (r: RequestStats)
    ensures r.totalCount == |rt|
    ensures r.pendingCount <= r.totalCount && r.resolvedCount <= r.totalCount && r.timeoutCount <= r.totalCount
  {
    RequestStats(
      Count(rt, (q: HelpRequest) => q.status == Pending),
      Count(rt, (q: HelpRequest) => q.status == Resolved),
      Count(rt, (q: HelpRequest) => q.status == Unresolved),
      |rt|)
  }

  /** Every request is in exactly one of the three states, so the counts add up to the total. */
  lemma StatisticsAddUp(rt: seq<HelpRequest>)
    ensures var s := GetStatistics(rt); s.pendingCount + s.resolvedCount + s.timeoutCount == s.totalCount
  {
    var always := (q: HelpRequest) => true;
    var pending := (q: HelpRequest) => q.status == Pending;
    var settled := (q: HelpRequest) => q.status != Pending;
    CountPartition(rt, always, pending, settled);
    CountPartition(rt, settled, (q: HelpRequest) => q.status == Resolved, (q: HelpRequest) => q.status == Unresolved);
    CountAll(rt, always);
  }

  // ---------------------------------------------------------------------------------------
  // Responding

  /** The deadline has passed: `now > timeout_at` (JavaScript's comparison of dates). */
  predicate PastDeadline(q: HelpRequest, now: Time) {
    q.timeoutAt.Some? && now > q.timeoutAt.value
  }

  /** What `respondToHelpRequest(id, answer)` returns: the resolved row, or the error it throws. */
  function RespondOutcome(rt: seq<HelpRequest>, id: Id, answer: Option<string>, now: Time)
    : (r: Result<HelpRequest, HrError>)
    ensures r == Err(EmptyAnswer) <==> answer.None? || IsBlank(answer.value)
    ensures r == Err(RequestNotFound) <==> !(answer.None? || IsBlank(answer.value)) && forall q :: q in rt ==> q.id != id
    ensures r.Err? && r.error.NotPending? ==> exists q :: q in rt && q.id == id && q.status == r.error.status && q.status != Pending
    ensures r == Err(TimedOut) ==> exists q :: q in rt && q.id == id && q.status == Pending && PastDeadline(q, now)
    ensures r.Ok? ==> FindRequest(rt, id).Some?
    ensures r.Ok? ==>
      var q := rt[FindRequest(rt, id).value];
      && q.status == Pending && !PastDeadline(q, now)
      && r.value == q.(status := Resolved, supervisorResponse := Some(answer.value), resolvedAt := Some(now))
  {
    if answer.None? || IsBlank(answer.value) then Err(EmptyAnswer)
    else
      match FindRequest(rt, id)
      case None => Err(RequestNotFound)
      case Some(i) =>
        var q := rt[i];
        assert q in rt;
        if q.status != Pending then Err(NotPending(q.status))
        else if PastDeadline(q, now) then Err(TimedOut)
        else Ok(q.(status := Resolved, supervisorResponse := Some(answer.value), resolvedAt := Some(now)))
  }

  /** The learning upsert: `INSERT (question_pattern, answer, learned_from_request_id) ... ON
      CONFLICT (question_pattern) DO UPDATE SET answer, updated_at, learned_from_request_id`. A
      fresh id is drawn either way, as the column default is evaluated before the conflict is
      detected. */
  function Upsert(kt: seq<KnowledgeEntry>, nextId: Id, pattern: string, answer: string, requestId: Id, now: Time)
    : (r: (seq<KnowledgeEntry>, Id))
    ensures r.1 == nextId + 1
  {
    match FindPattern(kt, pattern)
    case None => (kt + [KnowledgeEntry(nextId, pattern, answer, [], true, 0, Some(requestId), now, now)], nextId + 1)
    case Some(i) => (kt[i := kt[i].(answer := answer, updatedAt := now, learnedFromRequestId := Some(requestId))], nextId + 1)
  }

  /** After the upsert exactly one row has the pattern, holding the answer and the request it
      was learned from; a row that already had the pattern keeps its id, tags, `is_active`,
      `times_used` and creation time; every other row is unchanged; the table stays valid. */
  lemma UpsertCorrect(kt: seq<KnowledgeEntry>, nextId: Id, pattern: string, answer: string, requestId: Id, now: Time)
    requires KnowledgeTableValid(kt, nextId)
    ensures var (kt', next') := Upsert(kt, nextId, pattern, answer, requestId, now);
      && KnowledgeTableValid(kt', next')
      && FindPattern(kt', pattern).Some?
      && var e := kt'[FindPattern(kt', pattern).value];
      && e.answer == answer && e.learnedFromRequestId == Some(requestId) && e.updatedAt == now
      && (FindPattern(kt, pattern).Some? ==>
            var old_ := kt[FindPattern(kt, pattern).value];
            && |kt'| == |kt|
            && e == old_.(answer := answer, updatedAt := now, learnedFromRequestId := Some(requestId)))
      && (FindPattern(kt, pattern).None? ==>
            |kt'| == |kt| + 1 && e == KnowledgeEntry(nextId, pattern, answer, [], true, 0, Some(requestId), now, now))
      && (forall k :: 0 <= k < |kt| && kt[k].questionPattern != pattern ==> kt'[k] == kt[k])
  {
    var (kt', next') := Upsert(kt, nextId, pattern, answer, requestId, now);
    match FindPattern(kt, pattern)
    case None =>
      var e := KnowledgeEntry(nextId, pattern, answer, [], true, 0, Some(requestId), now, now);
      assert kt' == kt + [e];
      UniquePatternFind(kt', pattern, |kt|);
    case Some(i) =>
      forall p, q | 0 <= p < q < |kt'| ensures kt'[p].id != kt'[q].id && kt'[p].questionPattern != kt'[q].questionPattern {
        assert kt'[p].id == kt[p].id && kt'[q].id == kt[q].id;
        assert kt'[p].questionPattern == kt[p].questionPattern && kt'[q].questionPattern == kt[q].questionPattern;
      }
      UniquePatternFind(kt', pattern, i);
  }

  lemma UniquePatternFind(t: seq<KnowledgeEntry>, pattern: string, i: nat)
    requires forall p, q :: 0 <= p < q < |t| ==> t[p].questionPattern != t[q].questionPattern
    requires i < |t| && t[i].questionPattern == pattern
    ensures FindPattern(t, pattern) == Some(i)
  {
    var r := FindPattern(t, pattern);
    assert r.Some?;
  }

  /** Learning the same question twice leaves one row for it, holding the second answer and the
      second request id, and the same number of rows as learning it once. */
  lemma LearnTwice(kt: seq<KnowledgeEntry>, nextId: Id, pattern: string, a1: string, r1: Id, t1: Time,
                   a2: string, r2: Id, t2: Time)
    requires KnowledgeTableValid(kt, nextId)
    ensures var (k1, n1) := Upsert(kt, nextId, pattern, a1, r1, t1);
      var (k2, n2) := Upsert(k1, n1, pattern, a2, r2, t2);
      && |k2| == |k1|
      && FindPattern(k2, pattern).Some?
      && k2[FindPattern(k2, pattern).value].answer == a2
      && k2[FindPattern(k2, pattern).value].learnedFromRequestId == Some(r2)
      && (forall p, q :: 0 <= p < q < |k2| ==> k2[p].questionPattern != k2[q].questionPattern)
  {
    var (k1, n1) := Upsert(kt, nextId, pattern, a1, r1, t1);
    UpsertCorrect(kt, nextId, pattern, a1, r1, t1);
    UpsertCorrect(k1, n1, pattern, a2, r2, t2);
  }

  /** The upsert never reactivates: when the pattern belongs to a soft-deleted row, the learned
      answer stays inactive and no search returns it. */
  lemma LearnedIntoInactiveRowIsHidden(kt: seq<KnowledgeEntry>, nextId: Id, pattern: string, answer: string,
                                       requestId: Id, now: Time, question: Option<string>, threshold: Num,
                                       extracted: Option<seq<string>>, limit: int, sig: Signals)
    requires KnowledgeTableValid(kt, nextId)
    requires FindPattern(kt, pattern).Some? && !kt[FindPattern(kt, pattern).value].isActive
    ensures var kt' := Upsert(kt, nextId, pattern, answer, requestId, now).0;
      var i := FindPattern(kt, pattern).value;
      && !kt'[i].isActive && kt'[i].answer == answer
      && forall k :: 0 <= k < |SearchResults(kt', question, threshold, extracted, limit, sig)| ==>
           SearchResults(kt', question, threshold, extracted, limit, sig)[k].entry.questionPattern != pattern
  {
    var kt' := Upsert(kt, nextId, pattern, answer, requestId, now).0;
    var i := FindPattern(kt, pattern).value;
    UpsertCorrect(kt, nextId, pattern, answer, requestId, now);
    var r := SearchResults(kt', question, threshold, extracted, limit, sig);
    SearchResultsBounded(kt', question, threshold, extracted, limit, sig);
    forall k | 0 <= k < |r| ensures r[k].entry.questionPattern != pattern {
      var e := r[k].entry;
      var p :| 0 <= p < |kt'| && kt'[p] == e;
      assert e.isActive && !kt'[i].isActive;
      assert p != i;
      assert kt'[p] == kt[p];
    }
  }

  /** A learned answer is found again by the exact stage when the same question is asked in any
      letter case, provided the stored question has no surrounding white space, is not blank,
      and did not belong to a soft-deleted row: every result scores 1.0, the learned row holds
      the answer and its request, and it is among the results unless more rows matching it
      ignoring case than the limit allows crowd it out. When no other active row matches it
      ignoring case, it is the one result. */
  lemma LearnedAnswerIsFound(kt: seq<KnowledgeEntry>, nextId: Id, pattern: string, answer: string, requestId: Id,
                             now: Time, question: string, threshold: Num, extracted: Option<seq<string>>,
                             limit: int, sig: Signals)
    requires KnowledgeTableValid(kt, nextId)
    requires Trim(pattern) == pattern && pattern != []
    requires FindPattern(kt, pattern).None? || kt[FindPattern(kt, pattern).value].isActive
    requires LowerStr(Trim(question)) == LowerStr(pattern)
    ensures var kt' := Upsert(kt, nextId, pattern, answer, requestId, now).0;
      var r := SearchResults(kt', Some(question), threshold, extracted, limit, sig);
      && FindPattern(kt', pattern).Some?
      && var e := kt'[FindPattern(kt', pattern).value];
      && e.answer == answer && e.learnedFromRequestId == Some(requestId) && e.isActive
      && r != []
      && (forall k :: 0 <= k < |r| ==> r[k].score == 1.0)
      && (|ExactMatches(kt', Trim(question))| <= CappedLimit(limit) ==> Scored(e, 1.0) in r)
      && ((forall x :: x in kt && x.isActive && x.questionPattern != pattern ==> LowerStr(x.questionPattern) != LowerStr(pattern))
          ==> r == [Scored(e, 1.0)])
  {
    var kt' := Upsert(kt, nextId, pattern, answer, requestId, now).0;
    UpsertCorrect(kt, nextId, pattern, answer, requestId, now);
    var fi := FindPattern(kt', pattern).value;
    var e := kt'[fi];
    assert e.isActive;
    assert |Trim(question)| == |pattern| > 0;
    assert IsExactMatch(e, Trim(question));
    ExactStageShortCircuits(kt', question, threshold, extracted, limit, sig, e);
    if forall x :: x in kt && x.isActive && x.questionPattern != pattern ==> LowerStr(x.questionPattern) != LowerStr(pattern) {
      if FindPattern(kt, pattern).Some? {
        UniquePatternFind(kt', pattern, FindPattern(kt, pattern).value);
      }
      forall j | 0 <= j < |kt'| && j != fi ensures !IsExactMatch(kt'[j], Trim(question)) {
        assert j < |kt|;
        assert kt[j].questionPattern != pattern;
        assert kt'[j] == kt[j] && kt[j] in kt;
      }
      ExactStageSingle(kt', question, threshold, extracted, limit, sig, fi);
    }
  }

  /** A question stored with surrounding white space never matches in the exact stage: the
      search trims what it is asked, and lower-casing keeps white space where it is. */
  lemma PaddedPatternNeverExact(e: KnowledgeEntry, question: string)
    requires Trim(e.questionPattern) != e.questionPattern
    ensures !IsExactMatch(e, Trim(question))
  {
    var p := e.questionPattern;
    var t := Trim(question);
    TrimCharacterised(question);
    if |t| != |p| {
      assert |LowerStr(t)| != |LowerStr(p)|;
    } else if IsJsSpace(p[0]) {
      LowerKeepsSpace(t[0]);
      assert LowerStr(t)[0] != LowerStr(p)[0];
    } else {
      TrimOfUnpadded(p);
      LowerKeepsSpace(t[|t| - 1]);
      assert LowerStr(t)[|t| - 1] != LowerStr(p)[|p| - 1];
    }
  }

  /** A string that does not start with white space and is changed by trimming ends with it. */
  lemma TrimOfUnpadded(p: string)
    requires p != [] && !IsJsSpace(p[0]) && Trim(p) != p
    ensures IsJsSpace(p[|p| - 1])
  {
    TrimStartKeeps(p);
  }

  /** `respondToHelpRequest(id, answer)`. Inside the transaction the service works on copies of
      the tables; `COMMIT` writes them back and `ROLLBACK` drops them, so either the request is
      resolved and the answer learned together, or the database is left as it was. */
  method RespondToHelpRequest(db: Database, id: Id, answer: Option<string>, now: Time)
    returns (r: Result<HelpRequest, HrError>)
    requires db.Valid()
    modifies db
    ensures db.Valid()
    ensures r == RespondOutcome(old(db.requests), id, answer, now)
    ensures r.Ok? ==>
      && db.requests == old(db.requests)[FindRequest(old(db.requests), id).value := r.value]
      && (db.knowledge, db.nextId) == Upsert(old(db.knowledge), old(db.nextId), r.value.question, answer.value, id, now)
    ensures r.Err? ==> db.requests == old(db.requests) && db.knowledge == old(db.knowledge) && db.nextId == old(db.nextId)
  {
    if answer.None? || IsBlank(answer.value) {
      return Err(EmptyAnswer);
    }
    // BEGIN
    var requests := db.requests;
    var knowledge := db.knowledge;
    var nextId := db.nextId;
    var found := FindRequest(requests, id);
    if found.None? {
      return Err(RequestNotFound);  // ROLLBACK
    }
    var i := found.value;
    var request := requests[i];
    if request.status != Pending {
      return Err(NotPending(request.status));  // ROLLBACK
    }
    if PastDeadline(request, now) {
      if request.status != Unresolved {
        requests := requests[i := request.(status := Unresolved)];
      }
      return Err(TimedOut);  // ROLLBACK: the update above is discarded
    }
    var updated := request.(status := Resolved, supervisorResponse := Some(answer.value), resolvedAt := Some(now));
    requests := requests[i := updated];
    UpsertCorrect(knowledge, nextId, request.question, answer.value, id, now);
    var learned := Upsert(knowledge, nextId, request.question, answer.value, id, now);
    knowledge, nextId := learned.0, learned.1;
    // COMMIT
    assert RequestTableValid(requests, nextId) by {
      forall p, q | 0 <= p < q < |requests| ensures requests[p].id != requests[q].id {
        assert requests[p].id == db.requests[p].id && requests[q].id == db.requests[q].id;
      }
    }
    db.requests, db.knowledge, db.nextId := requests, knowledge, nextId;
    r := Ok(updated);
  }

  /** Respond changes nothing but the one request it resolves: every other request stays as it
      was, and a request already `resolved` or `unresolved` is refused. */
  lemma RespondTouchesOneRequest(rt: seq<HelpRequest>, id: Id, answer: Option<string>, now: Time)
    requires forall p, q :: 0 <= p < q < |rt| ==> rt[p].id != rt[q].id
    ensures forall q :: q in rt && q.id == id && q.status != Pending && !(answer.None? || IsBlank(answer.value)) ==>
      RespondOutcome(rt, id, answer, now) == Err(NotPending(q.status))
    ensures RespondOutcome(rt, id, answer, now).Ok? ==>
      var i := FindRequest(rt, id).value;
      forall k :: 0 <= k < |rt| && k != i ==> rt[k].id != id
  {
    forall q | q in rt && q.id == id && q.status != Pending && !(answer.None? || IsBlank(answer.value))
      ensures RespondOutcome(rt, id, answer, now) == Err(NotPending(q.status))
    {
      var p :| 0 <= p < |rt| && rt[p] == q;
      UniqueRequestFind(rt, id, p);
    }
    if RespondOutcome(rt, id, answer, now).Ok? {
      var i := FindRequest(rt, id).value;
      forall k | 0 <= k < |rt| && k != i ensures rt[k].id != id {
        if k < i {
          assert rt[k].id != rt[i].id;
        } else {
          assert rt[i].id != rt[k].id;
        }
      }
    }
  }

  lemma UniqueRequestFind(rt: seq<HelpRequest>, id: Id, i: nat)
    requires forall p, q :: 0 <= p < q < |rt| ==> rt[p].id != rt[q].id
    requires i < |rt| && rt[i].id == id
    ensures FindRequest(rt, id) == Some(i)
  {
    var r := FindRequest(rt, id);
    assert r.Some?;
  }

  // ---------------------------------------------------------------------------------------
  // The timeout sweep

  /** `status = 'pending' AND timeout_at < NOW()`. */
  predicate Expired(q: HelpRequest, now: Time) {
    q.status == Pending && q.timeoutAt.Some? && q.timeoutAt.value < now
  }

  /** The `RETURNING id, customer_phone, question` record of a timed-out request. */
  datatype TimedOutRequest = TimedOutRequest(id: Id, customerPhone: string, question: string)

  /** The table after `UPDATE help_requests SET status = 'unresolved' WHERE <expired>`. */
  function Sweep(rt: seq<HelpRequest>, now: Time): (r: seq<HelpRequest>)
    ensures |r| == |rt|
  {
    seq(|rt|, k requires 0 <= k < |rt| => if Expired(rt[k], now) then rt[k].(status := Unresolved) else rt[k])
  }

  /** The rows the sweep returns, in storage order. */
  function ExpiredRequests(rt: seq<HelpRequest>, now: Time): (r: seq<TimedOutRequest>)
    ensures forall x :: x in r <==> exists q :: q in rt && Expired(q, now) && x == TimedOutRequest(q.id, q.customerPhone, q.question)
    decreases |rt|
  {
    if rt == [] then []
    else
      var rest := ExpiredRequests(rt[1..], now);
      assert forall q :: q in rt <==> q == rt[0] || q in rt[1..];
      (if Expired(rt[0], now) then [TimedOutRequest(rt[0].id, rt[0].customerPhone, rt[0].question)] else []) + rest
  }

  /** `processTimeouts()`. */
  method ProcessTimeouts(db: Database, now: Time) returns (timedOut: seq<TimedOutRequest>)
    requires db.Valid()
    modifies db
    ensures db.Valid()
    ensures timedOut == ExpiredRequests(old(db.requests), now)
    ensures db.requests == Sweep(old(db.requests), now)
    ensures db.knowledge == old(db.knowledge) && db.nextId == old(db.nextId)
  {
    timedOut := ExpiredRequests(db.requests, now);
    SweepEffect(db.requests, now);
    db.requests := Sweep(db.requests, now);
  }

  /** The sweep marks exactly the expired rows `unresolved` and changes nothing else: ids and
      every other column are kept, and rows in the terminal states are untouched. */
  lemma SweepEffect(rt: seq<HelpRequest>, now: Time)
    ensures forall k :: 0 <= k < |rt| ==> Sweep(rt, now)[k].id == rt[k].id
    ensures forall k :: 0 <= k < |rt| && Expired(rt[k], now) ==> Sweep(rt, now)[k] == rt[k].(status := Unresolved)
    ensures forall k :: 0 <= k < |rt| && !Expired(rt[k], now) ==> Sweep(rt, now)[k] == rt[k]
    ensures forall k :: 0 <= k < |rt| && rt[k].status != Pending ==> Sweep(rt, now)[k] == rt[k]
    ensures forall k :: 0 <= k < |rt| ==> !Expired(Sweep(rt, now)[k], now)
  {
  }

  /** A second sweep at the same time finds nothing and changes nothing. */
  lemma SweepIdempotent(rt: seq<HelpRequest>, now: Time)
    ensures Sweep(Sweep(rt, now), now) == Sweep(rt, now)
    ensures ExpiredRequests(Sweep(rt, now), now) == []
  {
    SweepEffect(rt, now);
    NoneExpired(Sweep(rt, now), now);
  }

  lemma {:induction false} NoneExpired(rt: seq<HelpRequest>, now: Time)
    requires forall k :: 0 <= k < |rt| ==> !Expired(rt[k], now)
    ensures ExpiredRequests(rt, now) == []
    decreases |rt|
  {
    if rt != [] {
      NoneExpired(rt[1..], now);
    }
  }

  /** Respond and the sweep agree on the deadline: a pending request is refused as timed out
      exactly when the sweep would mark it `unresolved` (a request at its deadline second is
      still answered and not swept). */
  lemma DeadlineAgreement(rt: seq<HelpRequest>, id: Id, answer: string, now: Time)
    requires forall p, q :: 0 <= p < q < |rt| ==> rt[p].id != rt[q].id
    requires !IsBlank(answer)
    ensures forall q :: q in rt && q.id == id && q.status == Pending ==>
      (RespondOutcome(rt, id, Some(answer), now) == Err(TimedOut) <==> Expired(q, now))
  {
    forall q | q in rt && q.id == id && q.status == Pending
      ensures RespondOutcome(rt, id, Some(answer), now) == Err(TimedOut) <==> Expired(q, now)
    {
      var p :| 0 <= p < |rt| && rt[p] == q;
      UniqueRequestFind(rt, id, p);
    }
  }
}
