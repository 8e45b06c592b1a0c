/** The scoring half of `findBestMatch`: points per keyword, the entry-level
    priority and language adjustments, and the list of candidate matches in
    knowledge-base order. */
module Scoring {
  import opened Text
  import opened Language
  import opened SimilarityScorer

  /** A knowledge-base entry, as loaded from the knowledge file. */
  datatype Entry = Entry(id: string, keywords: seq<string>, priority: int, response: string)

  /** An entry together with its final score (an element of `matches`). */
  datatype Match = Match(item: Entry, score: real)

  const ExactPoints: int := 50
  const ContainsPoints: int := 30
  const PartialPoints: int := 15
  /** Priorities from this value up get the x1.2 protection boost. */
  const ProtectedPriority: int := 2800

  /** The if/else-if chain on one lowered keyword: exact match, the query
      contains the keyword, or the keyword contains a query of length >= 2.
      Only the first tier that applies pays, and a keyword earns tier points
      exactly when one of the three tests holds. */
  function TierPoints(text: string, lowerKey: string): (r: int)
    ensures r == ExactPoints <==> text == lowerKey
    ensures r == ContainsPoints <==> text != lowerKey && Contains(text, lowerKey)
    ensures r == PartialPoints <==>
      !Contains(text, lowerKey) && Contains(lowerKey, text) && |text| >= 2
    ensures r != 0 <==>
      text == lowerKey || Contains(text, lowerKey) || (Contains(lowerKey, text) && |text| >= 2)
  {
    if text == lowerKey then ExactPoints
    else if Contains(text, lowerKey) then ContainsPoints
    else if Contains(lowerKey, text) && |text| >= 2 then PartialPoints
    else 0
  }

  /** `Math.floor(similarity * 20)` when the similarity exceeds 0.5 (never for
      NaN), else nothing. Points are paid exactly above 0.5, are then at least
      10, and are the whole part of twenty times the similarity. */
  function SimilarityPoints(sim: JsNumber): (r: int)
    ensures r != 0 <==> sim.Num? && sim.value > 0.5
    ensures r != 0 ==> r >= 10 && r as real <= sim.value * 20.0 < r as real + 1.0
  {
    if sim.Num? && sim.value > 0.5 then (sim.value * 20.0).Floor else 0
  }

  /** Similarity points are 0 or lie in [10, 26] for any similarity the
      scorer can produce, and stay below 26 and 20 under the tighter bounds. */
  lemma SimilarityPointsRange(sim: JsNumber)
    requires sim.Num? ==> 0.0 <= sim.value <= 1.3
    ensures SimilarityPoints(sim) == 0 || 10 <= SimilarityPoints(sim) <= 26
    ensures sim.Num? && sim.value < 1.3 ==> SimilarityPoints(sim) <= 25
    ensures sim.Num? && sim.value < 1.0 ==> SimilarityPoints(sim) <= 19
  {
  }

  /** The points one keyword contributes to its entry. */
  function KeywordScore(text: string, keyword: string): (r: int)
    ensures 0 <= r <= ExactPoints + 26
  {
    var lowerKey := Lower(keyword);
    SimilarityPointsBounded(text, lowerKey);
    TierPoints(text, lowerKey) + SimilarityPoints(Similarity(text, lowerKey))
  }

  lemma SimilarityPointsBounded(a: string, b: string)
    ensures 0 <= SimilarityPoints(Similarity(a, b)) <= 26
  {
    if a != [] || b != [] {
      SimilarityBounds(a, b);
    }
    SimilarityPointsRange(Similarity(a, b));
  }

  /** A non-empty query equal to the lowered keyword earns the exact-match
      points plus the full similarity points: 50 + floor(1.3 * 20) = 76. */
  lemma ExactKeywordScore(text: string, keyword: string)
    requires text != [] && Lower(keyword) == text
    ensures KeywordScore(text, keyword) == 76
  {
    SimilarityOfEqual(text);
  }

  /** Any other keyword earns at most 55 against a lower-case query: at most
      the containment tier (30) plus the similarity points of two different
      strings (at most 25), or only similarity points (at most 26) when
      neither contains the other. */
  lemma InexactKeywordBound(text: string, keyword: string)
    requires Lower(text) == text && Lower(keyword) != text
    ensures KeywordScore(text, keyword) <= 55
  {
    var lowerKey := Lower(keyword);
    var sim := Similarity(text, lowerKey);
    LowerIdempotent(keyword);
    SimilarityBounds(text, lowerKey);
    if sim.value == 1.3 {
      SimilarityMaximalOnlyForEqual(text, lowerKey);
      assert false;
    }
    SimilarityPointsRange(sim);
  }

  /** An exact keyword match scores more than any inexact keyword. */
  lemma ExactMatchOutranksOthers(text: string, exact: string, other: string)
    requires text != [] && Lower(text) == text
    requires Lower(exact) == text && Lower(other) != text
    ensures KeywordScore(text, exact) > KeywordScore(text, other)
  {
    ExactKeywordScore(text, exact);
    InexactKeywordBound(text, other);
  }

  /** An empty query earns nothing from a non-empty keyword: it is not equal
      to it, does not contain it, is too short for the partial tier, and its
      similarity is 0. */
  lemma EmptyQueryKeywordScore(keyword: string)
    requires keyword != []
    ensures KeywordScore([], keyword) == 0
  {
    var lowerKey := Lower(keyword);
    assert !OccursAt([], lowerKey, 0);
    assert Overlap([], lowerKey, 0) == 0;
  }

  /** The total keyword points of an entry, summed in keyword order. */
  function KeywordTotal(text: string, keywords: seq<string>): (r: int)
    ensures r >= 0
  {
    if keywords == [] then 0
    else KeywordTotal(text, keywords[..|keywords| - 1]) + KeywordScore(text, keywords[|keywords| - 1])
  }

  /** With an empty query, an entry none of whose keywords is empty scores 0. */
  lemma {:induction false} EmptyQueryTotal(keywords: seq<string>)
    requires forall k :: 0 <= k < |keywords| ==> keywords[k] != []
    ensures KeywordTotal([], keywords) == 0
  {
    if keywords != [] {
      EmptyQueryTotal(keywords[..|keywords| - 1]);
      EmptyQueryKeywordScore(keywords[|keywords| - 1]);
    }
  }

  /** The language check of the source: the last `_`-segment of the id equals
      the upper-cased tag, or one of the four explicit tag/suffix pairs. */
  predicate LanguageMatches(id: string, lang: Lang) {
    var suffix := LastSegment(id, '_');
    || suffix == Upper(lang.Tag())
    || (lang.Tag() == "cn" && suffix == "CN")
    || (lang.Tag() == "jp" && suffix == "JP")
    || (lang.Tag() == "en" && suffix == "EN")
    || (lang.Tag() == "kr" && suffix == "KR")
  }

  lemma UpperTags()
    ensures Upper(Cn.Tag()) == "CN" && Upper(Jp.Tag()) == "JP"
    ensures Upper(Kr.Tag()) == "KR" && Upper(En.Tag()) == "EN"
    ensures Upper(Unknown.Tag()) == "UNKNOWN"
  {
    assert Upper("cn") == "CN";
    assert Upper("jp") == "JP";
    assert Upper("kr") == "KR";
    assert Upper("en") == "EN";
    assert Upper("unknown") == "UNKNOWN";
  }

  /** The four explicit pairs add nothing to the upper-case comparison. */
  lemma LanguageMatchesUpperTag(id: string, lang: Lang)
    ensures LanguageMatches(id, lang) <==> LastSegment(id, '_') == Upper(lang.Tag())
  {
    UpperTags();
  }

  /** An id `<topic>_<SUFFIX>` matches the language whose upper-cased tag is
      the suffix, and no other language. */
  lemma TaggedIdMatches(topic: string, lang: Lang, other: Lang)
    ensures LanguageMatches(topic + "_" + Upper(lang.Tag()), lang)
    ensures other != lang ==> !LanguageMatches(topic + "_" + Upper(lang.Tag()), other)
  {
    UpperTags();
    var suffix := Upper(lang.Tag());
    assert '_' !in suffix;
    LastSegmentAfterSeparator(topic, '_', suffix);
    assert topic + "_" + suffix == topic + ['_'] + suffix;
    LanguageMatchesUpperTag(topic + "_" + suffix, lang);
    LanguageMatchesUpperTag(topic + "_" + suffix, other);
  }

  /** The entry-level adjustments, in the source's order: add priority/100,
      multiply by 1.2 for a protected priority, multiply by 1.15 when the id's
      language suffix matches the detected language. Both factors are
      positive, so the score has the sign of `total + priority/100` and, for a
      non-negative base, is at most 1.2 * 1.15 = 1.38 times it. */
  function AdjustedScore(e: Entry, total: int, lang: Lang): (r: real)
    ensures var base := total as real + e.priority as real / 100.0;
      (r > 0.0 <==> base > 0.0) && (r < 0.0 <==> base < 0.0)
      && (base >= 0.0 ==> base <= r <= base * 1.38)
  {
    var withPriority := total as real + e.priority as real / 100.0;
    var protected := if e.priority >= ProtectedPriority then withPriority * 1.2 else withPriority;
    if LanguageMatches(e.id, lang) then protected * 1.15 else protected
  }

  /** More keyword points never lower an entry's final score: both boosts
      multiply by a positive factor. */
  lemma AdjustedScoreMonotone(e: Entry, t1: int, t2: int, lang: Lang)
    requires t1 > t2
    ensures AdjustedScore(e, t1, lang) > AdjustedScore(e, t2, lang)
  {
  }

  /** An entry with a protected priority outscores an otherwise identical
      entry with a lower priority, whatever its keyword points. */
  lemma ProtectedPriorityOutranks(e1: Entry, e2: Entry, total: int, lang: Lang)
    requires e1.id == e2.id
    requires e1.priority >= ProtectedPriority > e2.priority
    requires total >= 0
    ensures AdjustedScore(e1, total, lang) > AdjustedScore(e2, total, lang)
  {
    var b1 := total as real + e1.priority as real / 100.0;
    var b2 := total as real + e2.priority as real / 100.0;
    assert b1 >= 28.0 && b1 > b2;
    assert b1 * 1.2 > b2;
  }

  /** An entry whose id carries the detected language scores exactly 1.15
      times an otherwise identical entry whose id does not. */
  lemma LanguageBoost(e1: Entry, e2: Entry, total: int, lang: Lang)
    requires e1.priority == e2.priority
    requires LanguageMatches(e1.id, lang) && !LanguageMatches(e2.id, lang)
    ensures AdjustedScore(e1, total, lang) == AdjustedScore(e2, total, lang) * 1.15
  {
  }

  /** An entry enters `matches` when its keyword points are positive. */
  predicate IsCandidate(e: Entry, text: string) {
    KeywordTotal(text, e.keywords) > 0
  }

  /** The final score of an entry for a query. */
  function EntryScore(e: Entry, text: string, lang: Lang): real {
    AdjustedScore(e, KeywordTotal(text, e.keywords), lang)
  }

  /** The `matches` list: every candidate with its final score, in
      knowledge-base order. It is empty exactly when no entry is a candidate. */
  function Matches(kb: seq<Entry>, text: string, lang: Lang): (ms: seq<Match>)
    ensures |ms| <= |kb|
    ensures forall m :: m in ms ==>
      m.item in kb && IsCandidate(m.item, text) && m.score == EntryScore(m.item, text, lang)
    ensures ms == [] <==> forall j :: 0 <= j < |kb| ==> !IsCandidate(kb[j], text)
  {
    if kb == [] then []
    else
      var e := kb[|kb| - 1];
      var rest := Matches(kb[..|kb| - 1], text, lang);
      assert forall j :: 0 <= j < |kb| - 1 ==> kb[..|kb| - 1][j] == kb[j];
      rest + (if IsCandidate(e, text) then [Match(e, EntryScore(e, text, lang))] else [])
  }

  lemma MatchesStep(kb: seq<Entry>, i: nat, text: string, lang: Lang)
    requires i < |kb|
    ensures Matches(kb[..i + 1], text, lang)
         == Matches(kb[..i], text, lang)
          + (if IsCandidate(kb[i], text) then [Match(kb[i], EntryScore(kb[i], text, lang))] else [])
  {
    assert kb[..i + 1][..i] == kb[..i];
  }

  /** The inner `forEach` of `findBestMatch`: the points of every keyword of
      one entry, accumulated in `score`. */
  method ScoreKeywords(text: string, keywords: seq<string>) returns (score: int)
    ensures score == KeywordTotal(text, keywords)
  {
    score := 0;
    var j := 0;
    while j < |keywords|
      invariant 0 <= j <= |keywords|
      invariant score == KeywordTotal(text, keywords[..j])
    {
      var lowerKey := Lower(keywords[j]);
      ghost var before := score;
      if text == lowerKey {
        score := score + ExactPoints;
      } else if Contains(text, lowerKey) {
        score := score + ContainsPoints;
      } else if Contains(lowerKey, text) && |text| >= 2 {
        score := score + PartialPoints;
      }
      assert score == before + TierPoints(text, lowerKey);
      var similarity := CalculateSimilarity(text, lowerKey);
      if similarity.Num? && similarity.value > 0.5 {
        score := score + (similarity.value * 20.0).Floor;
      }
      assert score == before + KeywordScore(text, keywords[j]);
      assert keywords[..j + 1][..j] == keywords[..j];
      j := j + 1;
    }
    assert keywords[..j] == keywords;
  }

  /** The adjustments applied to an entry whose keywords scored. */
  method AdjustScore(item: Entry, score: int, lang: Lang) returns (adjusted: real)
    ensures adjusted == AdjustedScore(item, score, lang)
  {
    adjusted := score as real + item.priority as real / 100.0;
    if item.priority >= ProtectedPriority {
      adjusted := adjusted * 1.2;
    }
    if LanguageMatches(item.id, lang) {
      adjusted := adjusted * 1.15;
    }
  }

  /** One turn of the outer `forEach`: the match pushed for `item`, if its
      keywords scored. */
  method ScoreEntry(item: Entry, text: string, lang: Lang) returns (pushed: seq<Match>)
    ensures pushed == if IsCandidate(item, text) then [Match(item, EntryScore(item, text, lang))] else []
  {
    pushed := [];
    var score := ScoreKeywords(text, item.keywords);
    if score > 0 {
      var adjusted := AdjustScore(item, score, lang);
      pushed := [Match(item, adjusted)];
    }
  }

  /** The outer `forEach` of `findBestMatch`: score every entry, adjust the
      entries whose keywords scored, and push them onto `matches`. */
  method ScoreKnowledgeBase(kb: seq<Entry>, text: string, lang: Lang) returns (matches: seq<Match>)
    ensures matches == Matches(kb, text, lang)
  {
    matches := [];
    var i := 0;
    while i < |kb|
      invariant 0 <= i <= |kb|
      invariant matches == Matches(kb[..i], text, lang)
    {
      var pushed := ScoreEntry(kb[i], text, lang);
      matches := matches + pushed;
      MatchesStep(kb, i, text, lang);
      i := i + 1;
    }
    assert kb[..i] == kb;
  }
}
