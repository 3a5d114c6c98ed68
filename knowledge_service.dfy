/**
 * The knowledge-base service of backend/api/services/knowledge.service.js: the search with
 * its usage bump, creation, the field-filtered update, soft deletion, the usage counter,
 * and the read queries (by id, the ordered listing, the statistics). The operations that
 * write the `knowledge_base` table are methods on the `Database`; the reads are functions
 * of the tables.
 */
module KnowledgeService {
  import opened Common
  import opened Text
  import opened JsNumbers
  import opened Ranking
  import opened Schema
  import opened KnowledgeSearch

  /** Why a knowledge operation throws. */
  datatype KbError =
    | MissingFields     // "question_pattern and answer are required"
    | NoValidFields     // "No valid fields to update"
    | NotFound          // "Knowledge base entry not found"
    | UniqueViolation   // Postgres error 23505 on the unique `question_pattern`
    | DbRejected        // any other database error: a value of the wrong type, a column set
                        // twice, a negative LIMIT or OFFSET

  // ---------------------------------------------------------------------------------------
  // The usage counter

  /** The sum of `times_used` over the rows, as SQL `SUM(times_used)` (0 for no rows). */
  function SumUses(t: seq<KnowledgeEntry>): nat
    decreases |t|
  {
    if t == [] then 0 else t[0].timesUsed + SumUses(t[1..])
  }

  /** Bumping the counter of a known id changes that row alone, by one, and so raises the
      total by one; an unknown id changes nothing. Ids, patterns and the validity of the
      table are kept. */
  lemma BumpUsageEffect(t: seq<KnowledgeEntry>, nextId: Id, id: Id)
    requires KnowledgeTableValid(t, nextId)
    ensures KnowledgeTableValid(BumpUsage(t, id), nextId)
    ensures FindEntry(t, id).None? ==> BumpUsage(t, id) == t
    ensures FindEntry(t, id).Some? ==>
      var i := FindEntry(t, id).value;
      && BumpUsage(t, id)[i] == t[i].(timesUsed := t[i].timesUsed + 1)
      && (forall j :: 0 <= j < |t| && j != i ==> BumpUsage(t, id)[j] == t[j])
    ensures SumUses(BumpUsage(t, id)) == SumUses(t) + (if FindEntry(t, id).Some? then 1 else 0)
  {
    var r := BumpUsage(t, id);
    if FindEntry(t, id).None? {
      assert forall j :: 0 <= j < |t| ==> r[j] == t[j];
    }
    BumpUsageSum(t, id);
  }

  lemma {:induction false} BumpUsageSum(t: seq<KnowledgeEntry>, id: Id)
    requires forall i, j :: 0 <= i < j < |t| ==> t[i].id != t[j].id
    ensures SumUses(BumpUsage(t, id)) == SumUses(t) + (if FindEntry(t, id).Some? then 1 else 0)
    decreases |t|
  {
    if t != [] {
      BumpUsageSum(t[1..], id);
      assert BumpUsage(t, id)[1..] == BumpUsage(t[1..], id);
      assert FindEntry(t, id).Some? <==> t[0].id == id || FindEntry(t[1..], id).Some? by {
        if FindEntry(t[1..], id).Some? {
          var k := FindEntry(t[1..], id).value;
          assert t[k + 1].id == id;
        }
      }
      if t[0].id == id {
        assert FindEntry(t[1..], id).None?;
      }
    }
  }

  /** `incrementUsageCount(id)`. */
  method IncrementUsageCount(db: Database, id: Id)
    requires db.Valid()
    modifies db
    ensures db.Valid()
    ensures db.knowledge == BumpUsage(old(db.knowledge), id)
    ensures db.requests == old(db.requests) && db.nextId == old(db.nextId)
  {
    BumpUsageEffect(db.knowledge, db.nextId, id);
    db.knowledge := BumpUsage(db.knowledge, id);
  }

  // ---------------------------------------------------------------------------------------
  // The search

  /** `searchKnowledgeBase`: the rows the query returns (read before the counter changes), and
      the counter of the first row bumped when there is one. */
  method SearchKnowledgeBase(db: Database, question: Option<string>, threshold: Num,
                             extracted: Option<seq<string>>, limit: int, sig: Signals)
    returns (results: seq<Scored>)
    requires db.Valid()
    modifies db
    ensures db.Valid()
    ensures results == SearchResults(old(db.knowledge), question, threshold, extracted, limit, sig)
    ensures db.knowledge == (if results == [] then old(db.knowledge) else BumpUsage(old(db.knowledge), results[0].entry.id))
    ensures db.requests == old(db.requests) && db.nextId == old(db.nextId)
  {
    results := SearchResults(db.knowledge, question, threshold, extracted, limit, sig);
    if results != [] {
      IncrementUsageCount(db, results[0].entry.id);
    }
  }

  /** A search that returns rows bumps the counter of the first returned entry, which is a row of
      the table, by exactly one and leaves every other row as it was. */
  lemma SearchBumpsTopOnly(t: seq<KnowledgeEntry>, nextId: Id, question: Option<string>, threshold: Num,
                           extracted: Option<seq<string>>, limit: int, sig: Signals)
    requires KnowledgeTableValid(t, nextId)
    requires SearchResults(t, question, threshold, extracted, limit, sig) != []
    ensures var top := SearchResults(t, question, threshold, extracted, limit, sig)[0].entry;
      && FindEntry(t, top.id) .Some?
      && t[FindEntry(t, top.id).value] == top
      && BumpUsage(t, top.id)[FindEntry(t, top.id).value].timesUsed == top.timesUsed + 1
      && (forall j :: 0 <= j < |t| && t[j] != top ==> BumpUsage(t, top.id)[j] == t[j])
      && SumUses(BumpUsage(t, top.id)) == SumUses(t) + 1
  {
    var r := SearchResults(t, question, threshold, extracted, limit, sig);
    SearchResultsBounded(t, question, threshold, extracted, limit, sig);
    var top := r[0].entry;
    assert top in t;
    var p :| 0 <= p < |t| && t[p] == top;
    assert FindEntry(t, top.id).Some?;
    var i := FindEntry(t, top.id).value;
    assert i == p;
    BumpUsageEffect(t, nextId, top.id);
    forall j | 0 <= j < |t| && t[j] != top ensures BumpUsage(t, top.id)[j] == t[j] {
      assert j != i;
    }
  }

  // ---------------------------------------------------------------------------------------
  // Reading one entry

  /** `getKnowledgeById(id)`: the row with that id, or null. */
  function GetKnowledgeById(t: seq<KnowledgeEntry>, id: Id): (r: Option<KnowledgeEntry>)
    ensures r.Some? ==> r.value in t && r.value.id == id
    ensures r.None? <==> forall e :: e in t ==> e.id != id
  {
    match FindEntry(t, id)
    case None => None
    case Some(i) => Some(t[i])
  }

  // ---------------------------------------------------------------------------------------
  // Creation

  /** A JavaScript string argument that is truthy: present and not empty. */
  predicate Present(s: Option<string>) {
    s.Some? && s.value != ""
  }

  /** What `createKnowledgeEntry` does to a table whose next id is `nextId`: the row it inserts
      (trimmed pattern and answer, tags defaulting to `[]`, active, unused, not learned), or the
      error it throws. */
  function CreateOutcome(t: seq<KnowledgeEntry>, nextId: Id, pattern: Option<string>, answer: Option<string>,
                         tags: Option<seq<string>>, now: Time): (r: Result<KnowledgeEntry, KbError>)
    ensures r == Err(MissingFields) <==> !Present(pattern) || !Present(answer)
    ensures r == Err(UniqueViolation) <==>
      Present(pattern) && Present(answer) && exists e :: e in t && e.questionPattern == Trim(pattern.value)
    ensures r.Err? ==> r.error == MissingFields || r.error == UniqueViolation
    ensures r.Ok? ==>
      && r.value.id == nextId
      && r.value.questionPattern == Trim(pattern.value) && r.value.answer == Trim(answer.value)
      && r.value.tags == tags.GetOr([])
      && r.value.isActive && r.value.timesUsed == 0 && r.value.learnedFromRequestId.None?
      && r.value.createdAt == now && r.value.updatedAt == now
  {
    if !Present(pattern) || !Present(answer) then Err(MissingFields)
    else
      var p := Trim(pattern.value);
      if FindPattern(t, p).Some? then
        assert t[FindPattern(t, p).value] in t;
        Err(UniqueViolation)
      else Ok(KnowledgeEntry(nextId, p, Trim(answer.value), tags.GetOr([]), true, 0, None, now, now))
  }

  /** Inserting the created row keeps the table valid. */
  lemma CreateKeepsValid(t: seq<KnowledgeEntry>, nextId: Id, pattern: Option<string>, answer: Option<string>,
                         tags: Option<seq<string>>, now: Time)
    requires KnowledgeTableValid(t, nextId)
    requires CreateOutcome(t, nextId, pattern, answer, tags, now).Ok?
    ensures KnowledgeTableValid(t + [CreateOutcome(t, nextId, pattern, answer, tags, now).value], nextId + 1)
  {
    var e := CreateOutcome(t, nextId, pattern, answer, tags, now).value;
    var t' := t + [e];
    forall i, j | 0 <= i < j < |t'| ensures t'[i].id != t'[j].id && t'[i].questionPattern != t'[j].questionPattern {
      if j == |t| {
        assert t'[i] in t;
      }
    }
  }

  /** `createKnowledgeEntry({question_pattern, answer, tags})`. */
  method CreateKnowledgeEntry(db: Database, pattern: Option<string>, answer: Option<string>,
                              tags: Option<seq<string>>, now: Time)
    returns (r: Result<KnowledgeEntry, KbError>)
    requires db.Valid()
    modifies db
    ensures db.Valid()
    ensures r == CreateOutcome(old(db.knowledge), old(db.nextId), pattern, answer, tags, now)
    ensures r.Ok? ==> db.knowledge == old(db.knowledge) + [r.value] && db.nextId == old(db.nextId) + 1
    ensures r.Err? ==> db.knowledge == old(db.knowledge) && db.nextId == old(db.nextId)
    ensures db.requests == old(db.requests)
  {
    r := CreateOutcome(db.knowledge, db.nextId, pattern, answer, tags, now);
    if r.Ok? {
      CreateKeepsValid(db.knowledge, db.nextId, pattern, answer, tags, now);
      db.knowledge := db.knowledge + [r.value];
      db.nextId := db.nextId + 1;
    }
  }

  /** A created entry is asked its own pattern (in any letter case, with any surrounding white
      space): the exact stage answers, every result at score 1.0, and the created row is among
      the results unless more rows matching it ignoring case than the limit allows crowd it out.
      When no active row of the table matches it ignoring case, it is the one result. */
  lemma CreatedEntryIsFound(t: seq<KnowledgeEntry>, nextId: Id, pattern: string, answer: Option<string>,
                            tags: Option<seq<string>>, now: Time, question: string,
                            threshold: Num, extracted: Option<seq<string>>, limit: int, sig: Signals)
    requires CreateOutcome(t, nextId, Some(pattern), answer, tags, now).Ok?
    requires !IsBlank(pattern)
    requires LowerStr(Trim(question)) == LowerStr(Trim(pattern))
    ensures var e := CreateOutcome(t, nextId, Some(pattern), answer, tags, now).value;
      var r := SearchResults(t + [e], Some(question), threshold, extracted, limit, sig);
      && r != []
      && (forall k :: 0 <= k < |r| ==> r[k].score == 1.0)
      && (|ExactMatches(t + [e], Trim(question))| <= CappedLimit(limit) ==> Scored(e, 1.0) in r)
      && ((forall x :: x in t && x.isActive ==> LowerStr(x.questionPattern) != LowerStr(Trim(pattern)))
          ==> r == [Scored(e, 1.0)])
  {
    var e := CreateOutcome(t, nextId, Some(pattern), answer, tags, now).value;
    TrimCharacterised(pattern);
    assert |Trim(question)| == |LowerStr(Trim(pattern))| == |Trim(pattern)| > 0;
    assert IsExactMatch(e, Trim(question));
    var t' := t + [e];
    assert e in t';
    ExactStageShortCircuits(t', question, threshold, extracted, limit, sig, e);
    if forall x :: x in t && x.isActive ==> LowerStr(x.questionPattern) != LowerStr(Trim(pattern)) {
      forall j | 0 <= j < |t'| && j != |t| ensures !IsExactMatch(t'[j], Trim(question)) {
        assert t'[j] == t[j] && t[j] in t;
      }
      ExactStageSingle(t', question, threshold, extracted, limit, sig, |t|);
    }
  }

  // ---------------------------------------------------------------------------------------
  // Update

  /** A value of the request body: `undefined`, or a value of one of the column types. */
  datatype Value = Undefined | TextValue(text: string) | TagsValue(items: seq<string>) | FlagValue(flag: bool)

  const AllowedFields: seq<string> := ["question_pattern", "answer", "tags", "is_active"]

  /** The `(key, value)` pairs of the update object that become `SET` clauses: allowed keys
      whose value is not `undefined`, in their order. */
  function AllowedAssignments(updates: seq<(string, Value)>): (r: seq<(string, Value)>)
    ensures |r| <= |updates|
    ensures forall c :: c in r ==> c in updates && c.0 in AllowedFields && c.1 != Undefined
    ensures forall k :: 0 <= k < |updates| && updates[k].0 in AllowedFields && updates[k].1 != Undefined ==> updates[k] in r
    decreases |updates|
  {
    if updates == [] then []
    else
      var last := updates[|updates| - 1];
      var front := updates[..|updates| - 1];
      assert forall k :: 0 <= k < |front| ==> front[k] == updates[k];
      AllowedAssignments(front) + (if last.0 in AllowedFields && last.1 != Undefined then [last] else [])
  }

  /** The loop of `updateKnowledgeEntry` that collects the `SET` clauses and their parameters. */
  method CollectSetClauses(updates: seq<(string, Value)>) returns (assignments: seq<(string, Value)>)
    ensures assignments == AllowedAssignments(updates)
  {
    assignments := [];
    var i := 0;
    while i < |updates|
      invariant 0 <= i <= |updates|
      invariant assignments == AllowedAssignments(updates[..i])
    {
      var (key, value) := updates[i];
      assert updates[..i + 1][..i] == updates[..i];
      if key in AllowedFields && value != Undefined {
        assignments := assignments + [(key, value)];
      }
      i := i + 1;
    }
    assert updates[..i] == updates;
  }

  /** The column accepts the value: text for the pattern and the answer, a text array for the
      tags, a boolean for `is_active`. */
  predicate Fits(column: string, v: Value) {
    if column == "tags" then v.TagsValue?
    else if column == "is_active" then v.FlagValue?
    else v.TextValue?
  }

  /** Postgres accepts the `SET` list: every value fits its column and no column is set twice. */
  predicate Assignable(a: seq<(string, Value)>) {
    && (forall k :: 0 <= k < |a| ==> Fits(a[k].0, a[k].1))
    && (forall i, j :: 0 <= i < j < |a| ==> a[i].0 != a[j].0)
  }

  /** The value assigned to `column`, if any. */
  function ValueFor(a: seq<(string, Value)>, column: string): (r: Option<Value>)
    ensures r.None? <==> forall k :: 0 <= k < |a| ==> a[k].0 != column
    ensures r.Some? ==> exists k :: 0 <= k < |a| && a[k] == (column, r.value)
    decreases |a|
  {
    if a == [] then None
    else if a[0].0 == column then Some(a[0].1)
    else
      var r := ValueFor(a[1..], column);
      assert r.Some? ==> exists k :: 1 <= k < |a| && a[k] == (column, r.value) by {
        if r.Some? {
          var k :| 0 <= k < |a[1..]| && a[1..][k] == (column, r.value);
          assert a[k + 1] == a[1..][k];
        }
      }
      r
  }

  /** The row after `SET <assignments>, updated_at = NOW()`. */
  function Assign(e: KnowledgeEntry, a: seq<(string, Value)>, now: Time): (r: KnowledgeEntry)
    requires Assignable(a)
    ensures r.id == e.id && r.timesUsed == e.timesUsed && r.learnedFromRequestId == e.learnedFromRequestId
    ensures r.createdAt == e.createdAt && r.updatedAt == now
    ensures forall k :: 0 <= k < |a| && a[k].0 == "question_pattern" ==> r.questionPattern == a[k].1.text
    ensures forall k :: 0 <= k < |a| && a[k].0 == "answer" ==> r.answer == a[k].1.text
    ensures forall k :: 0 <= k < |a| && a[k].0 == "tags" ==> r.tags == a[k].1.items
    ensures forall k :: 0 <= k < |a| && a[k].0 == "is_active" ==> r.isActive == a[k].1.flag
    ensures ValueFor(a, "question_pattern").None? ==> r.questionPattern == e.questionPattern
    ensures ValueFor(a, "answer").None? ==> r.answer == e.answer
    ensures ValueFor(a, "tags").None? ==> r.tags == e.tags
    ensures ValueFor(a, "is_active").None? ==> r.isActive == e.isActive
  {
    var p := ValueFor(a, "question_pattern");
    var ans := ValueFor(a, "answer");
    var tg := ValueFor(a, "tags");
    var act := ValueFor(a, "is_active");
    e.(questionPattern := if p.Some? then p.value.text else e.questionPattern,
       answer := if ans.Some? then ans.value.text else e.answer,
       tags := if tg.Some? then tg.value.items else e.tags,
       isActive := if act.Some? then act.value.flag else e.isActive,
       updatedAt := now)
  }

  /** Another row than the one at `i` already has this pattern. */
  predicate PatternTakenElsewhere(t: seq<KnowledgeEntry>, i: nat, pattern: string) {
    exists j :: 0 <= j < |t| && j != i && t[j].questionPattern == pattern
  }

  /** What `updateKnowledgeEntry(id, updates)` does: the updated row, or the error it throws. */
  function UpdateOutcome(t: seq<KnowledgeEntry>, id: Id, updates: seq<(string, Value)>, now: Time)
    : (r: Result<KnowledgeEntry, KbError>)
    ensures r == Err(NoValidFields) <==>
      forall k :: 0 <= k < |updates| ==> updates[k].0 !in AllowedFields || updates[k].1 == Undefined
    ensures r == Err(DbRejected) <==> AllowedAssignments(updates) != [] && !Assignable(AllowedAssignments(updates))
    ensures r == Err(NotFound) <==>
      AllowedAssignments(updates) != [] && Assignable(AllowedAssignments(updates)) && forall e :: e in t ==> e.id != id
    ensures r.Err? ==> r.error in {NoValidFields, DbRejected, NotFound, UniqueViolation}
    ensures r.Ok? ==>
      && FindEntry(t, id).Some? && r.value.id == id
      && Assignable(AllowedAssignments(updates))
      && r.value == Assign(t[FindEntry(t, id).value], AllowedAssignments(updates), now)
      && !PatternTakenElsewhere(t, FindEntry(t, id).value, r.value.questionPattern)
  {
    var a := AllowedAssignments(updates);
    assert a != [] ==> a[0] in a;
    if a == [] then Err(NoValidFields)
    else if !Assignable(a) then Err(DbRejected)
    else
      match FindEntry(t, id)
      case None => Err(NotFound)
      case Some(i) =>
        var row := Assign(t[i], a, now);
        if PatternTakenElsewhere(t, i, row.questionPattern) then Err(UniqueViolation) else Ok(row)
  }

  /** The body sets `question_pattern` to a value another row of the table already holds. */
  predicate NewPatternTaken(t: seq<KnowledgeEntry>, id: Id, a: seq<(string, Value)>) {
    var v := ValueFor(a, "question_pattern");
    v.Some? && v.value.TextValue? && exists e :: e in t && e.id != id && e.questionPattern == v.value.text
  }

  /** On a valid table, an acceptable update of a known row fails with the unique violation
      exactly when it sets the pattern to one another row already holds; keeping the pattern
      never conflicts. */
  lemma UpdateConflict(t: seq<KnowledgeEntry>, nextId: Id, id: Id, updates: seq<(string, Value)>, now: Time)
    requires KnowledgeTableValid(t, nextId)
    ensures var a := AllowedAssignments(updates);
      a != [] && Assignable(a) && (exists e :: e in t && e.id == id) ==>
        && (UpdateOutcome(t, id, updates, now) == Err(UniqueViolation) <==> NewPatternTaken(t, id, a))
        && (UpdateOutcome(t, id, updates, now).Ok? <==> !NewPatternTaken(t, id, a))
  {
    var a := AllowedAssignments(updates);
    if a != [] && Assignable(a) && (exists e :: e in t && e.id == id) {
      var e0 :| e0 in t && e0.id == id;
      var i0 :| 0 <= i0 < |t| && t[i0] == e0;
      assert FindEntry(t, id).Some?;
      var i := FindEntry(t, id).value;
      var row := Assign(t[i], a, now);
      var v := ValueFor(a, "question_pattern");
      if v.Some? {
        var k :| 0 <= k < |a| && a[k] == ("question_pattern", v.value);
        assert Fits(a[k].0, a[k].1);
        assert row.questionPattern == v.value.text;
        if PatternTakenElsewhere(t, i, row.questionPattern) {
          var j :| 0 <= j < |t| && j != i && t[j].questionPattern == row.questionPattern;
          assert t[j] in t && t[j].id != id;
        }
        if NewPatternTaken(t, id, a) {
          var e :| e in t && e.id != id && e.questionPattern == v.value.text;
          var j :| 0 <= j < |t| && t[j] == e;
          assert j != i;
        }
      } else {
        assert row.questionPattern == t[i].questionPattern;
        assert !PatternTakenElsewhere(t, i, row.questionPattern);
      }
    }
  }

  /** An update touches only the allowed columns it names (and `updated_at`), and the table it
      produces is still valid. */
  lemma UpdateTouchesOnlyNamedFields(t: seq<KnowledgeEntry>, nextId: Id, id: Id, updates: seq<(string, Value)>, now: Time)
    requires KnowledgeTableValid(t, nextId)
    requires UpdateOutcome(t, id, updates, now).Ok?
    ensures var i := FindEntry(t, id).value; var row := UpdateOutcome(t, id, updates, now).value;
      && row.id == t[i].id && row.timesUsed == t[i].timesUsed
      && row.learnedFromRequestId == t[i].learnedFromRequestId && row.createdAt == t[i].createdAt
      && row.updatedAt == now
      && ((forall k :: 0 <= k < |updates| ==> updates[k].0 != "question_pattern" || updates[k].1 == Undefined) ==> row.questionPattern == t[i].questionPattern)
      && ((forall k :: 0 <= k < |updates| ==> updates[k].0 != "answer" || updates[k].1 == Undefined) ==> row.answer == t[i].answer)
      && ((forall k :: 0 <= k < |updates| ==> updates[k].0 != "tags" || updates[k].1 == Undefined) ==> row.tags == t[i].tags)
      && ((forall k :: 0 <= k < |updates| ==> updates[k].0 != "is_active" || updates[k].1 == Undefined) ==> row.isActive == t[i].isActive)
    ensures KnowledgeTableValid(t[FindEntry(t, id).value := UpdateOutcome(t, id, updates, now).value], nextId)
  {
    var a := AllowedAssignments(updates);
    var i := FindEntry(t, id).value;
    var row := UpdateOutcome(t, id, updates, now).value;
    assert row == Assign(t[i], a, now);
    NotAssignedWhenNotNamed(updates, "question_pattern");
    NotAssignedWhenNotNamed(updates, "answer");
    NotAssignedWhenNotNamed(updates, "tags");
    NotAssignedWhenNotNamed(updates, "is_active");
    var t' := t[i := row];
    assert !PatternTakenElsewhere(t, i, row.questionPattern);
    forall p, q | 0 <= p < q < |t'| ensures t'[p].id != t'[q].id && t'[p].questionPattern != t'[q].questionPattern {
      if p == i {
        assert t'[q] == t[q];
      } else if q == i {
        assert t'[p] == t[p];
      }
    }
  }

  lemma NotAssignedWhenNotNamed(updates: seq<(string, Value)>, column: string)
    ensures (forall k :: 0 <= k < |updates| ==> updates[k].0 != column || updates[k].1 == Undefined) ==>
      ValueFor(AllowedAssignments(updates), column).None?
  {
    var a := AllowedAssignments(updates);
    if forall k :: 0 <= k < |updates| ==> updates[k].0 != column || updates[k].1 == Undefined {
      forall k | 0 <= k < |a| ensures a[k].0 != column {
        assert a[k] in a;
      }
    }
  }

  /** `updateKnowledgeEntry(id, updates)`. */
  method UpdateKnowledgeEntry(db: Database, id: Id, updates: seq<(string, Value)>, now: Time)
    returns (r: Result<KnowledgeEntry, KbError>)
    requires db.Valid()
    modifies db
    ensures db.Valid()
    ensures r == UpdateOutcome(old(db.knowledge), id, updates, now)
    ensures r.Ok? ==> db.knowledge == old(db.knowledge)[FindEntry(old(db.knowledge), id).value := r.value]
    ensures r.Err? ==> db.knowledge == old(db.knowledge)
    ensures db.requests == old(db.requests) && db.nextId == old(db.nextId)
  {
    var assignments := CollectSetClauses(updates);
    if assignments == [] {
      assert UpdateOutcome(db.knowledge, id, updates, now) == Err(NoValidFields);
      return Err(NoValidFields);
    }
    r := UpdateOutcome(db.knowledge, id, updates, now);
    if r.Ok? {
      UpdateTouchesOnlyNamedFields(db.knowledge, db.nextId, id, updates, now);
      db.knowledge := db.knowledge[FindEntry(db.knowledge, id).value := r.value];
    }
  }

  // ---------------------------------------------------------------------------------------
  // Soft delete

  /** What `deleteKnowledgeEntry(id)` does: the row with `is_active = false` and a new
      `updated_at`, or "not found". */
  function DeleteOutcome(t: seq<KnowledgeEntry>, id: Id, now: Time): (r: Result<KnowledgeEntry, KbError>)
    ensures r.Err? <==> forall e :: e in t ==> e.id != id
    ensures r.Err? ==> r.error == NotFound
    ensures r.Ok? ==> FindEntry(t, id).Some? && !r.value.isActive && r.value.updatedAt == now
    ensures r.Ok? ==> r.value == t[FindEntry(t, id).value].(isActive := false, updatedAt := now)
  {
    match FindEntry(t, id)
    case None => Err(NotFound)
    case Some(i) => Ok(t[i].(isActive := false, updatedAt := now))
  }

  /** `deleteKnowledgeEntry(id)`. */
  method DeleteKnowledgeEntry(db: Database, id: Id, now: Time) returns (r: Result<KnowledgeEntry, KbError>)
    requires db.Valid()
    modifies db
    ensures db.Valid()
    ensures r == DeleteOutcome(old(db.knowledge), id, now)
    ensures r.Ok? ==> db.knowledge == old(db.knowledge)[FindEntry(old(db.knowledge), id).value := r.value]
    ensures r.Err? ==> db.knowledge == old(db.knowledge)
    ensures db.requests == old(db.requests) && db.nextId == old(db.nextId)
  {
    r := DeleteOutcome(db.knowledge, id, now);
    if r.Ok? {
      var i := FindEntry(db.knowledge, id).value;
      db.knowledge := db.knowledge[i := r.value];
      assert forall j :: 0 <= j < |db.knowledge| && j != i ==> db.knowledge[j] == old(db.knowledge)[j];
    }
  }

  /** A soft-deleted entry is still read by id but no search returns it. */
  lemma SoftDeletedIsHidden(t: seq<KnowledgeEntry>, nextId: Id, id: Id, now: Time,
                            question: Option<string>, threshold: Num, extracted: Option<seq<string>>,
                            limit: int, sig: Signals)
    requires KnowledgeTableValid(t, nextId)
    requires DeleteOutcome(t, id, now).Ok?
    ensures var t' := t[FindEntry(t, id).value := DeleteOutcome(t, id, now).value];
      && GetKnowledgeById(t', id) == Some(DeleteOutcome(t, id, now).value)
      && (forall k :: 0 <= k < |SearchResults(t', question, threshold, extracted, limit, sig)| ==>
            SearchResults(t', question, threshold, extracted, limit, sig)[k].entry.id != id)
  {
    var i := FindEntry(t, id).value;
    var d := DeleteOutcome(t, id, now).value;
    var t' := t[i := d];
    UniqueIdsFind(t', id, i);
    var r := SearchResults(t', question, threshold, extracted, limit, sig);
    SearchResultsBounded(t', question, threshold, extracted, limit, sig);
    forall k | 0 <= k < |r| ensures r[k].entry.id != id {
      var e := r[k].entry;
      var p :| 0 <= p < |t'| && t'[p] == e;
      assert e.isActive && !t'[i].isActive;
      assert p != i;
      assert t'[p] == t[p] && t[i].id == id;
    }
  }

  /** Setting `is_active` back to true on a soft-deleted entry restores every other field but
      `updated_at`. */
  lemma SoftDeleteUndone(t: seq<KnowledgeEntry>, nextId: Id, id: Id, now: Time, later: Time)
    requires KnowledgeTableValid(t, nextId)
    requires DeleteOutcome(t, id, now).Ok?
    ensures var i := FindEntry(t, id).value;
      UpdateOutcome(t[i := DeleteOutcome(t, id, now).value], id, [("is_active", FlagValue(true))], later)
        == Ok(t[i].(isActive := true, updatedAt := later))
  {
    var i := FindEntry(t, id).value;
    var t' := t[i := DeleteOutcome(t, id, now).value];
    UniqueIdsFind(t', id, i);
    var u := [("is_active", FlagValue(true))];
    assert AllowedAssignments(u) == u by {
      assert u[..0] == [];
    }
    Reactivate(t'[i], later);
    assert Assign(t'[i], u, later) == t[i].(isActive := true, updatedAt := later);
    assert !PatternTakenElsewhere(t', i, t[i].questionPattern) by {
      forall j | 0 <= j < |t'| && j != i ensures t'[j].questionPattern != t[i].questionPattern {
        assert t'[j] == t[j];
      }
    }
    UpdateOutcomeAt(t', id, i, u, later);
  }

  /** The update of a found row whose assignments Postgres accepts and whose pattern stays
      unique succeeds with the assigned row. */
  lemma UpdateOutcomeAt(t: seq<KnowledgeEntry>, id: Id, i: nat, u: seq<(string, Value)>, later: Time)
    requires FindEntry(t, id) == Some(i)
    requires AllowedAssignments(u) == u && u != [] && Assignable(u)
    requires !PatternTakenElsewhere(t, i, Assign(t[i], u, later).questionPattern)
    ensures UpdateOutcome(t, id, u, later) == Ok(Assign(t[i], u, later))
  {
  }

  lemma Reactivate(e: KnowledgeEntry, later: Time)
    ensures Assignable([("is_active", FlagValue(true))])
    ensures Assign(e, [("is_active", FlagValue(true))], later) == e.(isActive := true, updatedAt := later)
  {
    var u := [("is_active", FlagValue(true))];
    assert ValueFor(u, "question_pattern").None? && ValueFor(u, "answer").None? && ValueFor(u, "tags").None?;
    assert u[0].0 == "is_active";
  }

  lemma UniqueIdsFind(t: seq<KnowledgeEntry>, id: Id, i: nat)
    requires forall p, q :: 0 <= p < q < |t| ==> t[p].id != t[q].id
    requires i < |t| && t[i].id == id
    ensures FindEntry(t, id) == Some(i)
  {
    var r := FindEntry(t, id);
    assert r.Some?;
  }

  // ---------------------------------------------------------------------------------------
  // The listing

  /** The `learned_from_request` column of the listing: NULL for a seeded entry, the joined help
      request, or, when the referenced request is missing, an object whose fields are all NULL. */
  datatype Provenance = Seeded | LearnedFrom(request: HelpRequest) | LearnedFromMissing

  datatype Listed = Listed(entry: KnowledgeEntry, learnedFromRequest: Provenance)

  function FindRequestRow(rt: seq<HelpRequest>, id: Id): (r: Option<HelpRequest>)
    ensures r.Some? ==> r.value in rt && r.value.id == id
    ensures r.None? ==> forall q :: q in rt ==> q.id != id
  {
    match FindRequest(rt, id)
    case None => None
    case Some(i) => Some(rt[i])
  }

  /** `LEFT JOIN help_requests hr ON kb.learned_from_request_id = hr.id`. */
  function ProvenanceOf(e: KnowledgeEntry, rt: seq<HelpRequest>): (r: Provenance)
    ensures r.Seeded? <==> e.learnedFromRequestId.None?
    ensures r.LearnedFrom? ==> r.request in rt && e.learnedFromRequestId == Some(r.request.id)
    ensures r.LearnedFromMissing? ==> forall q :: q in rt ==> Some(q.id) != e.learnedFromRequestId
  {
    match e.learnedFromRequestId
    case None => Seeded
    case Some(rid) =>
      match FindRequestRow(rt, rid)
      case None => LearnedFromMissing
      case Some(q) => LearnedFrom(q)
  }

  /** The rows the listing query selects, with their provenance, in storage order. */
  function Listing(kt: seq<KnowledgeEntry>, rt: seq<HelpRequest>, activeOnly: bool): (r: seq<Listed>)
    ensures forall x :: x in r <==> x.entry in kt && (activeOnly ==> x.entry.isActive) && x.learnedFromRequest == ProvenanceOf(x.entry, rt)
    decreases |kt|
  {
    if kt == [] then []
    else
      (if !activeOnly || kt[0].isActive then [Listed(kt[0], ProvenanceOf(kt[0], rt))] else [])
      + Listing(kt[1..], rt, activeOnly)
  }

  /** `ORDER BY kb.times_used DESC, kb.created_at DESC`. */
  function ListKey(x: Listed): Rank {
    Rank(x.entry.timesUsed as real, x.entry.createdAt)
  }

  /** `getAllKnowledge({limit, offset, active_only})`: Postgres rejects a negative LIMIT or
      OFFSET. */
  function ListKnowledge(kt: seq<KnowledgeEntry>, rt: seq<HelpRequest>, limit: int, offset: int, activeOnly: bool)
    : (r: Result<seq<Listed>, KbError>)
    ensures r.Err? <==> limit < 0 || offset < 0
    ensures r.Ok? ==> |r.value| <= limit
  {
    if limit < 0 || offset < 0 then Err(DbRejected)
    else Ok(Window(SortDesc(Listing(kt, rt, activeOnly), ListKey), offset, limit))
  }

  /** The listing returns rows of the table (only active ones unless asked otherwise) with their
      provenance, most used first and newest first among equals; with no offset and a limit
      that covers the table, it returns every qualifying row. */
  lemma ListKnowledgeCorrect(kt: seq<KnowledgeEntry>, rt: seq<HelpRequest>, limit: int, offset: int, activeOnly: bool)
    requires limit >= 0 && offset >= 0
    ensures var r := ListKnowledge(kt, rt, limit, offset, activeOnly).value;
      && SortedBy(r, ListKey)
      && (forall k :: 0 <= k < |r| ==>
            r[k].entry in kt && (activeOnly ==> r[k].entry.isActive) && r[k].learnedFromRequest == ProvenanceOf(r[k].entry, rt))
      && (offset == 0 && limit >= |kt| ==>
            forall e :: e in kt && (activeOnly ==> e.isActive) ==> Listed(e, ProvenanceOf(e, rt)) in r)
  {
    var l := Listing(kt, rt, activeOnly);
    var s := SortDesc(l, ListKey);
    SortDescCorrect(l, ListKey);
    var r := ListKnowledge(kt, rt, limit, offset, activeOnly).value;
    assert r == Window(s, offset, limit);
    forall k | 0 <= k < |r| ensures r[k] in l {
      assert r[k] == s[offset + k];
      SortDescMembers(l, ListKey, s[offset + k]);
    }
    forall i, j | 0 <= i < j < |r| ensures Outranks(ListKey(r[i]), ListKey(r[j])) {
      assert r[i] == s[offset + i] && r[j] == s[offset + j];
    }
    if offset == 0 && limit >= |kt| {
      assert |l| <= |kt| by { ListingLength(kt, rt, activeOnly); }
      assert r == s;
      forall e | e in kt && (activeOnly ==> e.isActive) ensures Listed(e, ProvenanceOf(e, rt)) in r {
        SortDescMembers(l, ListKey, Listed(e, ProvenanceOf(e, rt)));
      }
    }
  }

  lemma {:induction false} ListingLength(kt: seq<KnowledgeEntry>, rt: seq<HelpRequest>, activeOnly: bool)
    ensures |Listing(kt, rt, activeOnly)| <= |kt|
    decreases |kt|
  {
    if kt != [] {
      ListingLength(kt[1..], rt, activeOnly);
    }
  }

  // ---------------------------------------------------------------------------------------
  // Statistics

  /** The `most_used` object: pattern, answer and usage count of the most used active entry. */
  datatype MostUsed = MostUsed(questionPattern: string, answer: string, timesUsed: nat)

  datatype KnowledgeStats = KnowledgeStats(
    activeCount: nat, inactiveCount: nat, totalCount: nat, seededCount: nat, learnedCount: nat,
    totalUses: Option<nat>, mostUsed: Option<MostUsed>)

  /** The first active entry with the highest `times_used` (`WHERE is_active ORDER BY
      times_used DESC LIMIT 1`; among equal counts Postgres may return any of them). */
  function MostUsedEntry(t: seq<KnowledgeEntry>): (r: Option<KnowledgeEntry>)
    ensures r.None? <==> forall e :: e in t ==> !e.isActive
    ensures r.Some? ==> r.value in t && r.value.isActive
    ensures r.Some? ==> forall e :: e in t && e.isActive ==> e.timesUsed <= r.value.timesUsed
    decreases |t|
  {
    if t == [] then None
    else
      var rest := MostUsedEntry(t[1..]);
      assert forall e :: e in t ==> e == t[0] || e in t[1..];
      if t[0].isActive && (rest.None? || rest.value.timesUsed <= t[0].timesUsed) then Some(t[0]) else rest
  }

  /** `getKnowledgeStatistics()` without the average. */
  function KnowledgeStatistics(t: seq<KnowledgeEntry>): (r: KnowledgeStats)
    ensures r.totalCount == |t|
    ensures r.totalUses.None? <==> t == []
    ensures r.mostUsed.None? <==> forall e :: e in t ==> !e.isActive
  {
    KnowledgeStats(
      Count(t, (e: KnowledgeEntry) => e.isActive),
      Count(t, (e: KnowledgeEntry) => !e.isActive),
      |t|,
      Count(t, (e: KnowledgeEntry) => e.learnedFromRequestId.None? && e.isActive),
      Count(t, (e: KnowledgeEntry) => e.learnedFromRequestId.Some? && e.isActive),
      if t == [] then None else Some(SumUses(t)),
      match MostUsedEntry(t)
      case None => None
      case Some(e) => Some(MostUsed(e.questionPattern, e.answer, e.timesUsed)))
  }

  /** The counts add up: active and inactive make the total, seeded and learned make the active
      count; and `most_used` is an active entry no other active entry is used more than. */
  lemma KnowledgeStatisticsConsistent(t: seq<KnowledgeEntry>)
    ensures var s := KnowledgeStatistics(t);
      && s.activeCount + s.inactiveCount == s.totalCount
      && s.seededCount + s.learnedCount == s.activeCount
      && (s.mostUsed.Some? ==> exists e :: e in t && e.isActive && s.mostUsed.value == MostUsed(e.questionPattern, e.answer, e.timesUsed))
      && (s.mostUsed.Some? ==> forall e :: e in t && e.isActive ==> e.timesUsed <= s.mostUsed.value.timesUsed)
  {
    var always := (e: KnowledgeEntry) => true;
    CountPartition(t, always, (e: KnowledgeEntry) => e.isActive, (e: KnowledgeEntry) => !e.isActive);
    CountAll(t, always);
    CountPartition(t, (e: KnowledgeEntry) => e.isActive,
                   (e: KnowledgeEntry) => e.learnedFromRequestId.None? && e.isActive,
                   (e: KnowledgeEntry) => e.learnedFromRequestId.Some? && e.isActive);
  }

  lemma {:induction false} CountAll<T>(s: seq<T>, p: T -> bool)
    requires forall x :: p(x)
    ensures Count(s, p) == |s|
    decreases |s|
  {
    if s != [] {
      CountAll(s[1..], p);
    }
  }
}
