/**
 * What `searchKnowledgeBase` computes (backend/api/services/knowledge.service.js): an exact,
 * case-insensitive match stage that short-circuits the search, and otherwise a fuzzy stage
 * that admits active entries through a union of gates, scores each one with a ladder of
 * tiers, orders them by score and usage count, and keeps the first `limit`.
 *
 * The Postgres functions the query calls are not modelled; `Signals` stands for them.
 */
module KnowledgeSearch {
  import opened Common
  import opened Text
  import opened JsNumbers
  import opened Ranking
  import opened Schema

  /** The database functions the fuzzy query uses, applied to (question_pattern, question):
      pg_trgm `similarity`, the similarity of the cached normalized question to
      `normalize_question(question)` (0 when the cache is NULL), `ts_rank` and `@@` of the
      English full-text vector against `plainto_tsquery(question)`. `similarity` is also
      applied to (tag, word). */
  datatype Signals = Signals(
    similarity: (string, string) -> real,
    normalizedSimilarity: (string, string) -> real,
    textRank: (string, string) -> real,
    textMatch: (string, string) -> bool)

  /** The ranges Postgres guarantees: similarities in [0, 1], ranks non-negative. */
  ghost predicate SignalsInRange(sig: Signals) {
    && (forall a, b :: 0.0 <= sig.similarity(a, b) <= 1.0)
    && (forall a, b :: 0.0 <= sig.normalizedSimilarity(a, b) <= 1.0)
    && (forall a, b :: sig.textRank(a, b) >= 0.0)
  }

  const MaxLimit: int := 20
  const FuzzyTagCutoff: real := 0.7
  const ExactTagScore: real := 0.85
  const FuzzyTagScore: real := 0.75
  const OverlapBase: real := 0.70
  const OverlapStep: real := 0.05
  const OverlapCap: real := 0.90

  /** `Math.min(Math.max(1, limit), 20)`. */
  function CappedLimit(limit: int): (r: int)
    ensures 1 <= r <= MaxLimit
    ensures 1 <= limit <= MaxLimit ==> r == limit
    ensures limit < 1 ==> r == 1
    ensures limit > MaxLimit ==> r == MaxLimit
  {
    if limit < 1 then 1 else if limit > MaxLimit then MaxLimit else limit
  }

  /** `string_to_array(LOWER(q), ' ')`: the words the exact tag test compares against. */
  function QueryWords(q: string): seq<string> {
    Split(LowerStr(q), ' ')
  }

  /** `string_to_array(q, ' ')`: the words the fuzzy tag test compares against (case kept). */
  function RawWords(q: string): seq<string> {
    Split(q, ' ')
  }

  /** Some lower-cased tag equals some word. */
  predicate ExactTagHit(tags: seq<string>, words: seq<string>) {
    exists i, j :: 0 <= i < |tags| && 0 <= j < |words| && LowerStr(tags[i]) == words[j]
  }

  /** Some (tag, word) pair is more than 0.7 similar. */
  predicate FuzzyTagHit(tags: seq<string>, words: seq<string>, sim: (string, string) -> real) {
    exists i, j :: 0 <= i < |tags| && 0 <= j < |words| && sim(tags[i], words[j]) > FuzzyTagCutoff
  }

  function MaxOpt(a: Option<real>, b: Option<real>): Option<real> {
    if a.None? then b
    else if b.None? then a
    else if a.value >= b.value then a else b
  }

  /** `MAX(similarity(tag, word))` over the words, for one tag; NULL when there are no words. */
  function MaxWithTag(tag: string, words: seq<string>, sim: (string, string) -> real): (r: Option<real>)
    ensures r.None? <==> |words| == 0
    ensures r.Some? ==> exists j :: 0 <= j < |words| && sim(tag, words[j]) == r.value
    ensures r.Some? ==> forall j :: 0 <= j < |words| ==> sim(tag, words[j]) <= r.value
    decreases |words|
  {
    if words == [] then None
    else
      var rest := MaxWithTag(tag, words[1..], sim);
      assert rest.Some? ==> exists j :: 1 <= j < |words| && sim(tag, words[j]) == rest.value by {
        if rest.Some? {
          var j :| 0 <= j < |words[1..]| && sim(tag, words[1..][j]) == rest.value;
          assert words[1..][j] == words[j + 1];
        }
      }
      MaxOpt(Some(sim(tag, words[0])), rest)
  }

  /** `(SELECT MAX(similarity(tag, word)) FROM unnest(tags) AS tag, unnest(words) AS word)`:
      NULL exactly when there is no (tag, word) pair. */
  function MaxTagSimilarity(tags: seq<string>, words: seq<string>, sim: (string, string) -> real): (r: Option<real>)
    ensures r.None? <==> |tags| == 0 || |words| == 0
    ensures r.Some? ==> exists i, j :: 0 <= i < |tags| && 0 <= j < |words| && sim(tags[i], words[j]) == r.value
    ensures r.Some? ==> forall i, j :: 0 <= i < |tags| && 0 <= j < |words| ==> sim(tags[i], words[j]) <= r.value
    decreases |tags|
  {
    if tags == [] then None
    else
      var rest := MaxTagSimilarity(tags[1..], words, sim);
      assert rest.Some? ==> exists i, j :: 1 <= i < |tags| && 0 <= j < |words| && sim(tags[i], words[j]) == rest.value by {
        if rest.Some? {
          var i, j :| 0 <= i < |tags[1..]| && 0 <= j < |words| && sim(tags[1..][i], words[j]) == rest.value;
          assert tags[1..][i] == tags[i + 1];
        }
      }
      MaxOpt(MaxWithTag(tags[0], words, sim), rest)
  }

  /** The number of extracted tags equal, ignoring case, to this entry tag. */
  function MatchesOf(tag: string, extracted: seq<string>): nat
    decreases |extracted|
  {
    if extracted == [] then 0
    else (if LowerStr(tag) == LowerStr(extracted[0]) then 1 else 0) + MatchesOf(tag, extracted[1..])
  }

  /** `COUNT(*)` of the (kb_tag, extracted_tag) pairs with `LOWER(kb_tag) = LOWER(extracted_tag)`. */
  function OverlapCount(tags: seq<string>, extracted: seq<string>): nat
    decreases |tags|
  {
    if tags == [] then 0 else MatchesOf(tags[0], extracted) + OverlapCount(tags[1..], extracted)
  }

  /** The `EXISTS` over the same pairs. */
  predicate TagOverlap(tags: seq<string>, extracted: seq<string>) {
    exists i, j :: 0 <= i < |tags| && 0 <= j < |extracted| && LowerStr(tags[i]) == LowerStr(extracted[j])
  }

  lemma {:induction false} MatchesOfPositive(tag: string, extracted: seq<string>)
    ensures MatchesOf(tag, extracted) > 0 <==> exists j :: 0 <= j < |extracted| && LowerStr(tag) == LowerStr(extracted[j])
    decreases |extracted|
  {
    if extracted != [] {
      MatchesOfPositive(tag, extracted[1..]);
      if MatchesOf(tag, extracted[1..]) > 0 {
        var j :| 0 <= j < |extracted[1..]| && LowerStr(tag) == LowerStr(extracted[1..][j]);
        assert extracted[1..][j] == extracted[j + 1];
      }
      if exists j :: 0 <= j < |extracted| && LowerStr(tag) == LowerStr(extracted[j]) {
        var j :| 0 <= j < |extracted| && LowerStr(tag) == LowerStr(extracted[j]);
        if j > 0 {
          assert extracted[1..][j - 1] == extracted[j];
        }
      }
    }
  }

  /** The overlap count is positive exactly when the `EXISTS` holds. */
  lemma {:induction false} OverlapCountPositive(tags: seq<string>, extracted: seq<string>)
    ensures OverlapCount(tags, extracted) > 0 <==> TagOverlap(tags, extracted)
    decreases |tags|
  {
    if tags != [] {
      OverlapCountPositive(tags[1..], extracted);
      MatchesOfPositive(tags[0], extracted);
      if TagOverlap(tags[1..], extracted) {
        var i, j :| 0 <= i < |tags[1..]| && 0 <= j < |extracted| && LowerStr(tags[1..][i]) == LowerStr(extracted[j]);
        assert tags[1..][i] == tags[i + 1];
      }
      if TagOverlap(tags, extracted) {
        var i, j :| 0 <= i < |tags| && 0 <= j < |extracted| && LowerStr(tags[i]) == LowerStr(extracted[j]);
        if i > 0 {
          assert tags[1..][i - 1] == tags[i];
        }
      }
    }
  }

  /** `extractedTags && extractedTags.length > 0`. */
  predicate HasExtractedTags(extracted: Option<seq<string>>) {
    extracted.Some? && |extracted.value| > 0
  }

  /** The arm of the `CASE` that scores an entry in the fuzzy stage. */
  datatype Tier = ExtractedTagOverlap(count: nat) | ExactTagMatch | FuzzyTagMatch | WeightedComposite

  function TierOf(e: KnowledgeEntry, q: string, extracted: Option<seq<string>>, sig: Signals): Tier {
    if HasExtractedTags(extracted) && TagOverlap(e.tags, extracted.value) then
      ExtractedTagOverlap(OverlapCount(e.tags, extracted.value))
    else if ExactTagHit(e.tags, QueryWords(q)) then ExactTagMatch
    else
      match MaxTagSimilarity(e.tags, RawWords(q), sig.similarity)
      case Some(m) => if m > FuzzyTagCutoff then FuzzyTagMatch else WeightedComposite
      case None => WeightedComposite
  }

  /** `similarity*0.5 + normalized similarity*0.3 + ts_rank*0.2`. */
  function Composite(e: KnowledgeEntry, q: string, sig: Signals): real {
    0.5 * sig.similarity(e.questionPattern, q)
      + 0.3 * sig.normalizedSimilarity(e.questionPattern, q)
      + 0.2 * sig.textRank(e.questionPattern, q)
  }

  function TierScore(t: Tier, composite: real): real {
    match t
    case ExtractedTagOverlap(c) =>
      var boosted := OverlapBase + OverlapStep * c as real;
      if boosted < OverlapCap then boosted else OverlapCap
    case ExactTagMatch => ExactTagScore
    case FuzzyTagMatch => FuzzyTagScore
    case WeightedComposite => composite
  }

  /** The `similarity_score` column of the fuzzy stage. */
  function Score(e: KnowledgeEntry, q: string, extracted: Option<seq<string>>, sig: Signals): real {
    TierScore(TierOf(e, q, extracted, sig), Composite(e, q, sig))
  }

  /** `x > threshold` for a threshold that came from JavaScript's `parseFloat`. */
  predicate Exceeds(x: real, threshold: Num) {
    match threshold
    case Finite(v) => x > v
    case Infinite(positive) => !positive
    case NaN => false
  }

  /** The `WHERE` clause of the fuzzy stage, apart from `is_active`. The composite score is
      not one of the gates. */
  predicate Admitted(e: KnowledgeEntry, q: string, threshold: Num, extracted: Option<seq<string>>, sig: Signals) {
    || (HasExtractedTags(extracted) && TagOverlap(e.tags, extracted.value))
    || Exceeds(sig.similarity(e.questionPattern, q), threshold)
    || Exceeds(sig.normalizedSimilarity(e.questionPattern, q), threshold)
    || sig.textMatch(e.questionPattern, q)
    || ExactTagHit(e.tags, QueryWords(q))
    || FuzzyTagHit(e.tags, RawWords(q), sig.similarity)
  }

  /** A returned row: the entry as read, with its `similarity_score`. */
  datatype Scored = Scored(entry: KnowledgeEntry, score: real)

  /** `ORDER BY similarity_score DESC, times_used DESC`. */
  function SearchKey(s: Scored): Rank {
    Rank(s.score, s.entry.timesUsed)
  }

  predicate IsExactMatch(e: KnowledgeEntry, q: string) {
    e.isActive && LowerStr(e.questionPattern) == LowerStr(q)
  }

  /** The rows of the exact stage, in storage order (that query has no `ORDER BY`). */
  function ExactMatches(t: seq<KnowledgeEntry>, q: string): (r: seq<KnowledgeEntry>)
    ensures forall x :: x in r <==> x in t && IsExactMatch(x, q)
    decreases |t|
  {
    if t == [] then []
    else (if IsExactMatch(t[0], q) then [t[0]] else []) + ExactMatches(t[1..], q)
  }

  /** The rows of the exact stage with their constant score 1.0. */
  function AtFullScore(es: seq<KnowledgeEntry>): (r: seq<Scored>)
    ensures |r| == |es|
    ensures forall k :: 0 <= k < |r| ==> r[k] == Scored(es[k], 1.0)
  {
    seq(|es|, k requires 0 <= k < |es| => Scored(es[k], 1.0))
  }

  /** The active, admitted entries of the fuzzy stage with their scores, in storage order. */
  function Candidates(t: seq<KnowledgeEntry>, q: string, threshold: Num, extracted: Option<seq<string>>, sig: Signals): (r: seq<Scored>)
    ensures forall s :: s in r <==>
      s.entry in t && s.entry.isActive && Admitted(s.entry, q, threshold, extracted, sig) && s.score == Score(s.entry, q, extracted, sig)
    decreases |t|
  {
    if t == [] then []
    else
      var e := t[0];
      (if e.isActive && Admitted(e, q, threshold, extracted, sig) then [Scored(e, Score(e, q, extracted, sig))] else [])
        + Candidates(t[1..], q, threshold, extracted, sig)
  }

  /** The rows `searchKnowledgeBase` returns for the table `t`. */
  function SearchResults(t: seq<KnowledgeEntry>, question: Option<string>, threshold: Num,
                         extracted: Option<seq<string>>, limit: int, sig: Signals): seq<Scored>
  {
    if question.None? || Trim(question.value) == [] then []
    else
      var q := Trim(question.value);
      var exact := ExactMatches(t, q);
      if exact != [] then AtFullScore(Take(exact, CappedLimit(limit)))
      else Take(SortDesc(Candidates(t, q, threshold, extracted, sig), SearchKey), CappedLimit(limit))
  }

  /** `UPDATE knowledge_base SET times_used = times_used + 1 WHERE id = $1`. */
  function BumpUsage(t: seq<KnowledgeEntry>, id: Id): (r: seq<KnowledgeEntry>)
    ensures |r| == |t|
  {
    seq(|t|, i requires 0 <= i < |t| => if t[i].id == id then t[i].(timesUsed := t[i].timesUsed + 1) else t[i])
  }

  // ---------------------------------------------------------------------------------------
  // The tier ladder

  /** The fuzzy tag arm, decided in the query by `MAX(similarity(tag, word)) > 0.7`, fires
      exactly when some (tag, word) pair passes the fuzzy gate's `similarity(tag, word) > 0.7`;
      with no tags the `MAX` is NULL and neither fires. */
  lemma FuzzyArmMatchesGate(tags: seq<string>, words: seq<string>, sim: (string, string) -> real)
    ensures (MaxTagSimilarity(tags, words, sim).Some? && MaxTagSimilarity(tags, words, sim).value > FuzzyTagCutoff)
            <==> FuzzyTagHit(tags, words, sim)
    ensures tags == [] ==> MaxTagSimilarity(tags, words, sim).None? && !FuzzyTagHit(tags, words, sim)
  {
    var m := MaxTagSimilarity(tags, words, sim);
    if FuzzyTagHit(tags, words, sim) {
      var i, j :| 0 <= i < |tags| && 0 <= j < |words| && sim(tags[i], words[j]) > FuzzyTagCutoff;
      assert m.Some?;
    }
  }

  /** Which arm of the `CASE` scores an entry: the first of extracted-tag overlap, exact
      word/tag hit, fuzzy tag hit that applies, else the weighted composite. */
  lemma TierLadder(e: KnowledgeEntry, q: string, extracted: Option<seq<string>>, sig: Signals)
    ensures TierOf(e, q, extracted, sig).ExtractedTagOverlap? <==> HasExtractedTags(extracted) && TagOverlap(e.tags, extracted.value)
    ensures TierOf(e, q, extracted, sig).ExactTagMatch? <==>
      !(HasExtractedTags(extracted) && TagOverlap(e.tags, extracted.value)) && ExactTagHit(e.tags, QueryWords(q))
    ensures TierOf(e, q, extracted, sig).FuzzyTagMatch? <==>
      !(HasExtractedTags(extracted) && TagOverlap(e.tags, extracted.value)) && !ExactTagHit(e.tags, QueryWords(q))
      && FuzzyTagHit(e.tags, RawWords(q), sig.similarity)
    ensures TierOf(e, q, extracted, sig).WeightedComposite? <==>
      !(HasExtractedTags(extracted) && TagOverlap(e.tags, extracted.value)) && !ExactTagHit(e.tags, QueryWords(q))
      && !FuzzyTagHit(e.tags, RawWords(q), sig.similarity)
  {
    FuzzyArmMatchesGate(e.tags, RawWords(q), sig.similarity);
  }

  /** The scores each arm can give. The extracted-tag arm counts at least one overlapping pair
      and scores `min(0.90, 0.70 + 0.05 * count)`, so it lies in [0.75, 0.90] and reaches 0.90
      from four pairs on; the two tag-hit arms score 0.85 and 0.75; the composite is
      non-negative whenever the database functions stay in their ranges. */
  lemma ScoreByTier(e: KnowledgeEntry, q: string, extracted: Option<seq<string>>, sig: Signals)
    ensures var t := TierOf(e, q, extracted, sig);
      t.ExtractedTagOverlap? ==>
        && t.count >= 1
        && Score(e, q, extracted, sig) == (if 0.70 + 0.05 * t.count as real < 0.90 then 0.70 + 0.05 * t.count as real else 0.90)
        && 0.75 <= Score(e, q, extracted, sig) <= 0.90
        && (Score(e, q, extracted, sig) == 0.90 <==> t.count >= 4)
    ensures TierOf(e, q, extracted, sig).ExactTagMatch? ==> Score(e, q, extracted, sig) == 0.85
    ensures TierOf(e, q, extracted, sig).FuzzyTagMatch? ==> Score(e, q, extracted, sig) == 0.75
    ensures TierOf(e, q, extracted, sig).WeightedComposite? ==> Score(e, q, extracted, sig) == Composite(e, q, sig)
    ensures SignalsInRange(sig) ==> Score(e, q, extracted, sig) >= 0.0
  {
    if HasExtractedTags(extracted) && TagOverlap(e.tags, extracted.value) {
      OverlapCountPositive(e.tags, extracted.value);
    }
    if SignalsInRange(sig) {
      assert sig.similarity(e.questionPattern, q) >= 0.0;
      assert sig.normalizedSimilarity(e.questionPattern, q) >= 0.0;
      assert sig.textRank(e.questionPattern, q) >= 0.0;
    }
  }

  /** Any tag signal lifts the score to at least 0.75, whatever the text similarity is. */
  lemma TagSignalFloor(e: KnowledgeEntry, q: string, extracted: Option<seq<string>>, sig: Signals)
    requires || (HasExtractedTags(extracted) && TagOverlap(e.tags, extracted.value))
             || ExactTagHit(e.tags, QueryWords(q))
             || FuzzyTagHit(e.tags, RawWords(q), sig.similarity)
    ensures 0.75 <= Score(e, q, extracted, sig) <= 0.90
  {
    TierLadder(e, q, extracted, sig);
    ScoreByTier(e, q, extracted, sig);
  }

  /** Supplying extracted tags that overlap an entry's tags raises its score above what the
      same question earns without them, provided no tag arm applied before and the composite
      was below 0.75. */
  lemma OverlapRaisesWeakScore(e: KnowledgeEntry, q: string, extracted: seq<string>, sig: Signals)
    requires |extracted| > 0 && TagOverlap(e.tags, extracted)
    requires !ExactTagHit(e.tags, QueryWords(q)) && !FuzzyTagHit(e.tags, RawWords(q), sig.similarity)
    requires Composite(e, q, sig) < 0.75
    ensures Score(e, q, Some(extracted), sig) > Score(e, q, None, sig)
  {
    TierLadder(e, q, Some(extracted), sig);
    TierLadder(e, q, None, sig);
    ScoreByTier(e, q, Some(extracted), sig);
  }

  /** The extracted-tag arm comes first even though it can score below the exact word/tag arm:
      with one overlapping tag, an entry whose tag is also a word of the question drops from
      0.85 to 0.75 when the caller supplies extracted tags. */
  lemma OverlapCanLowerScore(sig: Signals)
    ensures var e := KnowledgeEntry(0, "When are you open?", "9 to 5", ["hours"], true, 0, None, 0, 0);
      Score(e, "hours", None, sig) == 0.85 && Score(e, "hours", Some(["hours"]), sig) == 0.75
  {
    var e := KnowledgeEntry(0, "When are you open?", "9 to 5", ["hours"], true, 0, None, 0, 0);
    assert Split("hours", ' ') == ["hours"] by { SplitWithoutSeparator("hours", ' '); }
    assert LowerStr("hours") == "hours";
    assert LowerStr(e.tags[0]) == QueryWords("hours")[0];
    assert TagOverlap(e.tags, ["hours"]) by {
      assert LowerStr(e.tags[0]) == LowerStr(["hours"][0]);
    }
    assert OverlapCount(e.tags, ["hours"]) == 1;
  }

  /** The weighted composite needs no gate of its own: when the full-text match fails and
      `ts_rank` is then 0, a composite above the threshold already implies that one of the two
      similarity gates admits the entry. */
  lemma CompositeGateRedundant(e: KnowledgeEntry, q: string, threshold: real, extracted: Option<seq<string>>, sig: Signals)
    requires SignalsInRange(sig)
    requires !sig.textMatch(e.questionPattern, q) ==> sig.textRank(e.questionPattern, q) == 0.0
    requires Composite(e, q, sig) > threshold
    ensures Admitted(e, q, Finite(threshold), extracted, sig)
  {
    var a := sig.similarity(e.questionPattern, q);
    var b := sig.normalizedSimilarity(e.questionPattern, q);
    assert 0.0 <= a <= 1.0 && 0.0 <= b <= 1.0;
    if !sig.textMatch(e.questionPattern, q) {
      assert Composite(e, q, sig) == 0.5 * a + 0.3 * b;
      assert a > threshold || b > threshold;
    }
  }

  // ---------------------------------------------------------------------------------------
  // The search

  /** The search returns nothing for a missing or blank question, never more than the capped
      limit, and only active rows of the table. */
  lemma SearchResultsBounded(t: seq<KnowledgeEntry>, question: Option<string>, threshold: Num,
                             extracted: Option<seq<string>>, limit: int, sig: Signals)
    ensures question.None? || IsBlank(question.value) ==> SearchResults(t, question, threshold, extracted, limit, sig) == []
    ensures |SearchResults(t, question, threshold, extracted, limit, sig)| <= CappedLimit(limit)
    ensures forall k :: 0 <= k < |SearchResults(t, question, threshold, extracted, limit, sig)| ==>
      SearchResults(t, question, threshold, extracted, limit, sig)[k].entry in t &&
      SearchResults(t, question, threshold, extracted, limit, sig)[k].entry.isActive
  {
    var r := SearchResults(t, question, threshold, extracted, limit, sig);
    if question.Some? {
      TrimCharacterised(question.value);
      if Trim(question.value) != [] {
        var q := Trim(question.value);
        var exact := ExactMatches(t, q);
        var cap := CappedLimit(limit);
        if exact != [] {
          forall k | 0 <= k < |r| ensures r[k].entry in t && r[k].entry.isActive {
            assert r[k].entry == Take(exact, cap)[k] == exact[k];
            assert exact[k] in exact;
          }
        } else {
          var sorted := SortDesc(Candidates(t, q, threshold, extracted, sig), SearchKey);
          forall k | 0 <= k < |r| ensures r[k].entry in t && r[k].entry.isActive {
            assert r[k] == sorted[k];
            SortDescMembers(Candidates(t, q, threshold, extracted, sig), SearchKey, sorted[k]);
          }
        }
      }
    }
  }

  /** When an active entry's pattern equals the trimmed question ignoring case, the search
      returns only such entries, every one scored 1.0 regardless of the threshold, as many as
      exist up to the capped limit; the fuzzy stage does not run. When all such entries fit
      under the limit, the given one is among the results. */
  lemma ExactStageShortCircuits(t: seq<KnowledgeEntry>, question: string, threshold: Num,
                                extracted: Option<seq<string>>, limit: int, sig: Signals, hit: KnowledgeEntry)
    requires Trim(question) != [] && hit in t && IsExactMatch(hit, Trim(question))
    ensures var r := SearchResults(t, Some(question), threshold, extracted, limit, sig);
      && r != []
      && (forall k :: 0 <= k < |r| ==> r[k].score == 1.0 && r[k].entry in t && IsExactMatch(r[k].entry, Trim(question)))
      && |r| == (if |ExactMatches(t, Trim(question))| < CappedLimit(limit) then |ExactMatches(t, Trim(question))| else CappedLimit(limit))
      && (|ExactMatches(t, Trim(question))| <= CappedLimit(limit) ==> Scored(hit, 1.0) in r)
  {
    var q := Trim(question);
    var exact := ExactMatches(t, q);
    var cap := CappedLimit(limit);
    assert hit in exact;
    var r := SearchResults(t, Some(question), threshold, extracted, limit, sig);
    assert r == AtFullScore(Take(exact, cap));
    forall k | 0 <= k < |r| ensures r[k].score == 1.0 && r[k].entry in t && IsExactMatch(r[k].entry, q) {
      assert r[k].entry == exact[k];
      assert exact[k] in exact;
    }
    if |exact| <= cap {
      var p :| 0 <= p < |exact| && exact[p] == hit;
      assert r[p] == Scored(hit, 1.0);
    }
  }

  /** When exactly one row of the table matches, the exact stage returns that row alone. */
  lemma {:induction false} ExactMatchesSingle(t: seq<KnowledgeEntry>, q: string, i: nat)
    requires i < |t| && IsExactMatch(t[i], q)
    requires forall j :: 0 <= j < |t| && j != i ==> !IsExactMatch(t[j], q)
    ensures ExactMatches(t, q) == [t[i]]
    decreases |t|
  {
    if i == 0 {
      NoExactMatches(t[1..], q);
    } else {
      forall j | 0 <= j < |t[1..]| && j != i - 1 ensures !IsExactMatch(t[1..][j], q) {
        assert t[1..][j] == t[j + 1];
      }
      ExactMatchesSingle(t[1..], q, i - 1);
    }
  }

  lemma {:induction false} NoExactMatches(t: seq<KnowledgeEntry>, q: string)
    requires forall j :: 0 <= j < |t| ==> !IsExactMatch(t[j], q)
    ensures ExactMatches(t, q) == []
    decreases |t|
  {
    if t != [] {
      NoExactMatches(t[1..], q);
    }
  }

  /** When the given row is the table's only exact match, the search returns it alone, at
      score 1.0. */
  lemma ExactStageSingle(t: seq<KnowledgeEntry>, question: string, threshold: Num,
                         extracted: Option<seq<string>>, limit: int, sig: Signals, i: nat)
    requires Trim(question) != [] && i < |t| && IsExactMatch(t[i], Trim(question))
    requires forall j :: 0 <= j < |t| && j != i ==> !IsExactMatch(t[j], Trim(question))
    ensures SearchResults(t, Some(question), threshold, extracted, limit, sig) == [Scored(t[i], 1.0)]
  {
    ExactMatchesSingle(t, Trim(question), i);
  }

  /** Without an exact match, every returned row is an active entry that passes an admission
      gate, carries the score of its tier, and the rows come in descending (score, times_used)
      order. */
  lemma FuzzyStageRanksAdmitted(t: seq<KnowledgeEntry>, question: string, threshold: Num,
                                extracted: Option<seq<string>>, limit: int, sig: Signals)
    requires ExactMatches(t, Trim(question)) == []
    ensures var r := SearchResults(t, Some(question), threshold, extracted, limit, sig);
      && SortedBy(r, SearchKey)
      && forall k :: 0 <= k < |r| ==>
           r[k].entry in t && r[k].entry.isActive
           && Admitted(r[k].entry, Trim(question), threshold, extracted, sig)
           && r[k].score == Score(r[k].entry, Trim(question), extracted, sig)
  {
    var q := Trim(question);
    var r := SearchResults(t, Some(question), threshold, extracted, limit, sig);
    if q != [] {
      var cands := Candidates(t, q, threshold, extracted, sig);
      var sorted := SortDesc(cands, SearchKey);
      SortDescCorrect(cands, SearchKey);
      forall k | 0 <= k < |r| ensures r[k] in cands {
        assert r[k] == sorted[k];
        SortDescMembers(cands, SearchKey, sorted[k]);
      }
    }
  }

  /** Without an exact match, the limit keeps the best rows: an admitted active entry that is
      not returned is ranked no higher than every returned row, and when fewer rows than the
      limit come back, every admitted active entry is among them. */
  lemma FuzzyStageKeepsBest(t: seq<KnowledgeEntry>, question: string, threshold: Num,
                            extracted: Option<seq<string>>, limit: int, sig: Signals, e: KnowledgeEntry)
    requires Trim(question) != [] && ExactMatches(t, Trim(question)) == []
    requires e in t && e.isActive && Admitted(e, Trim(question), threshold, extracted, sig)
    ensures var r := SearchResults(t, Some(question), threshold, extracted, limit, sig);
      var c := Scored(e, Score(e, Trim(question), extracted, sig));
      && (|r| < CappedLimit(limit) ==> c in r)
      && (c !in r ==> forall k :: 0 <= k < |r| ==> Outranks(SearchKey(r[k]), SearchKey(c)))
  {
    var q := Trim(question);
    var cap := CappedLimit(limit);
    var r := SearchResults(t, Some(question), threshold, extracted, limit, sig);
    var c := Scored(e, Score(e, q, extracted, sig));
    var cands := Candidates(t, q, threshold, extracted, sig);
    var sorted := SortDesc(cands, SearchKey);
    SortDescCorrect(cands, SearchKey);
    SortDescMembers(cands, SearchKey, c);
    var p :| 0 <= p < |sorted| && sorted[p] == c;
    assert r == Take(sorted, cap);
    if p < |r| {
      assert r[p] == c;
    } else {
      assert |r| == cap;
      forall k | 0 <= k < |r| ensures Outranks(SearchKey(r[k]), SearchKey(c)) {
        assert r[k] == sorted[k];
      }
    }
  }
}
