/**
 * The two tables the core reads and writes, `knowledge_base` and `help_requests`, and the
 * database that holds them. Ids are UUIDs in the repository; here they are natural numbers
 * handed out by a counter, which keeps them unique. Times are whole seconds.
 */
module Schema {
  import opened Common

  type Id = nat
  type Time = int

  const SecondsPerMinute: int := 60

  /** A row of `knowledge_base`. The cached `normalized_question` column is not stored: the
      search treats it as a function of `questionPattern`. */
  datatype KnowledgeEntry = KnowledgeEntry(
    id: Id,
    questionPattern: string,
    answer: string,
    tags: seq<string>,
    isActive: bool,
    timesUsed: nat,
    learnedFromRequestId: Option<Id>,
    createdAt: Time,
    updatedAt: Time)

  datatype Status = Pending | Resolved | Unresolved

  /** A row of `help_requests`. */
  datatype HelpRequest = HelpRequest(
    id: Id,
    customerPhone: string,
    question: string,
    status: Status,
    callId: Option<string>,
    agentConfidence: Option<real>,
    timeoutAt: Option<Time>,
    createdAt: Time,
    resolvedAt: Option<Time>,
    supervisorResponse: Option<string>)

  /** Ids are below the counter and unique, and `question_pattern` is unique (the key the
      learning upsert conflicts on). */
  ghost predicate KnowledgeTableValid(t: seq<KnowledgeEntry>, nextId: Id) {
    && (forall i :: 0 <= i < |t| ==> t[i].id < nextId)
    && (forall i, j :: 0 <= i < j < |t| ==> t[i].id != t[j].id && t[i].questionPattern != t[j].questionPattern)
  }

  ghost predicate RequestTableValid(t: seq<HelpRequest>, nextId: Id) {
    && (forall i :: 0 <= i < |t| ==> t[i].id < nextId)
    && (forall i, j :: 0 <= i < j < |t| ==> t[i].id != t[j].id)
  }

  /** The position of the knowledge row with this id. */
  function FindEntry(t: seq<KnowledgeEntry>, id: Id): (r: Option<nat>)
    ensures r.Some? ==> r.value < |t| && t[r.value].id == id
    ensures r.None? <==> forall i :: 0 <= i < |t| ==> t[i].id != id
    decreases |t|
  {
    if t == [] then None
    else if t[|t| - 1].id == id then Some(|t| - 1)
    else FindEntry(t[..|t| - 1], id)
  }

  /** The position of the knowledge row whose `question_pattern` is exactly `pattern`. */
  function FindPattern(t: seq<KnowledgeEntry>, pattern: string): (r: Option<nat>)
    ensures r.Some? ==> r.value < |t| && t[r.value].questionPattern == pattern
    ensures r.None? <==> forall i :: 0 <= i < |t| ==> t[i].questionPattern != pattern
    decreases |t|
  {
    if t == [] then None
    else if t[|t| - 1].questionPattern == pattern then Some(|t| - 1)
    else FindPattern(t[..|t| - 1], pattern)
  }

  /** The position of the help request with this id. */
  function FindRequest(t: seq<HelpRequest>, id: Id): (r: Option<nat>)
    ensures r.Some? ==> r.value < |t| && t[r.value].id == id
    ensures r.None? <==> forall i :: 0 <= i < |t| ==> t[i].id != id
    decreases |t|
  {
    if t == [] then None
    else if t[|t| - 1].id == id then Some(|t| - 1)
    else FindRequest(t[..|t| - 1], id)
  }

  /** The Postgres database behind the service layer: both tables and the id generator. */
  class Database {
    var knowledge: seq<KnowledgeEntry>
    var requests: seq<HelpRequest>
    var nextId: Id

    ghost predicate Valid()
      reads this
    {
      KnowledgeTableValid(knowledge, nextId) && RequestTableValid(requests, nextId)
    }

    constructor ()
      ensures Valid()
      ensures knowledge == [] && requests == [] && nextId == 0
    {
      knowledge := [];
      requests := [];
      nextId := 0;
    }
  }
}
