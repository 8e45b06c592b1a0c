/** `findBestMatch` with its memo: the knowledge base, loaded once, and the
    `semanticCache` map with its `cacheHitCount`, which empties itself on the
    500th hit. */
module Engine {
  import opened Optional
  import opened Text
  import opened Language
  import opened Scoring
  import opened Ranking

  /** `CACHE_CLEAR_THRESHOLD`. */
  const CacheClearThreshold: nat := 500

  /** The query as scored: `userInput.toLowerCase().trim()`. It is no longer
      than the input, holds no ASCII capital, and is empty exactly when the
      input is blank. */
  function Normalize(input: string): (r: string)
    ensures |r| <= |input|
    ensures r == [] <==> !HasContent(input)
    ensures forall k :: 0 <= k < |r| ==> !('A' <= r[k] <= 'Z')
  {
    TrimOfLower(input);
    Trim(Lower(input))
  }

  /** The cache key `${text}_${lang}`. Because no tag contains `_`, the last
      `_`-separated segment of a key is its tag. */
  function CacheKey(text: string, lang: Lang): (key: string)
    ensures LastSegment(key, '_') == lang.Tag()
  {
    assert '_' !in lang.Tag();
    LastSegmentAfterSeparator(text, '_', lang.Tag());
    text + "_" + lang.Tag()
  }

  lemma TagInjective(l1: Lang, l2: Lang)
    requires l1.Tag() == l2.Tag()
    ensures l1 == l2
  {
    assert l1.Tag()[0] == l2.Tag()[0];
  }

  /** Distinct queries or languages never share a cache key, so the string
      key is as good as the pair (text, language). */
  lemma CacheKeyInjective(t1: string, l1: Lang, t2: string, l2: Lang)
    requires CacheKey(t1, l1) == CacheKey(t2, l2)
    ensures t1 == t2 && l1 == l2
  {
    TagInjective(l1, l2);
    var key := CacheKey(t1, l1);
    assert |t1| == |t2|;
    assert t1 == key[..|t1|] == t2;
  }

  /** Every cached entry is the entry a fresh ranking would choose for its
      key. */
  ghost predicate Coherent(kb: seq<Entry>, cache: map<string, Entry>) {
    forall text, lang :: CacheKey(text, lang) in cache ==>
      BestMatch(kb, text, lang) == Some(cache[CacheKey(text, lang)])
  }

  /** Caching the ranking's answer under its own key keeps the cache
      coherent. */
  lemma CoherentInsert(kb: seq<Entry>, cache: map<string, Entry>, text: string, lang: Lang, e: Entry)
    requires Coherent(kb, cache) && BestMatch(kb, text, lang) == Some(e)
    ensures Coherent(kb, cache[CacheKey(text, lang) := e])
  {
    var updated := cache[CacheKey(text, lang) := e];
    forall t, l | CacheKey(t, l) in updated
      ensures BestMatch(kb, t, l) == Some(updated[CacheKey(t, l)])
    {
      if CacheKey(t, l) == CacheKey(text, lang) {
        CacheKeyInjective(t, l, text, lang);
      }
    }
  }

  /** The miss path of `findBestMatch`: score every entry, sort the matches
      by descending score, and take the item at the head. */
  method RankKnowledgeBase(kb: seq<Entry>, text: string, lang: Lang) returns (best: Option<Entry>)
    ensures best == BestMatch(kb, text, lang)
  {
    var matches := ScoreKnowledgeBase(kb, text, lang);
    if |matches| == 0 {
      return None;
    }
    var sorted := SortByScore(matches);
    StableSortHead(matches, sorted);
    best := Some(sorted[0].item);
  }

  class MatchEngine {
    /** `knowledgeBase`, fixed once it is loaded. */
    const knowledgeBase: seq<Entry>
    /** `semanticCache`. */
    var cache: map<string, Entry>
    /** `cacheHitCount`. */
    var hitCount: int

    /** The counter stays below the threshold, and every cached entry is the
        entry a fresh ranking would choose for its key. */
    ghost predicate Valid()
      reads this
    {
      && 0 <= hitCount < CacheClearThreshold
      && Coherent(knowledgeBase, cache)
    }

    /** The engine once `knowledge.json` has been loaded into `kb`. */
    constructor(kb: seq<Entry>)
      ensures Valid()
      ensures knowledgeBase == kb && cache == map[] && hitCount == 0
    {
      knowledgeBase := kb;
      cache := map[];
      hitCount := 0;
    }

    /** `findBestMatch(userInput)`.
        On a hit the counter goes up; on reaching the threshold the cache is
        emptied and the counter reset before the lookup, so that call answers
        nothing. On a miss the knowledge base is ranked, and a found entry is
        cached under the query's key and nothing else in the cache changes.
        Whatever path is taken, an answer is always the ranking's answer. */
    method FindBestMatch(userInput: string) returns (best: Option<Entry>)
      requires Valid()
      modifies this
      ensures Valid()
      ensures var text := Normalize(userInput);
              var lang := DetectLanguage(userInput);
              var key := CacheKey(text, lang);
              if key in old(cache) then
                if old(hitCount) + 1 >= CacheClearThreshold then
                  cache == map[] && hitCount == 0 && best == None
                else
                  cache == old(cache) && hitCount == old(hitCount) + 1
                  && best == Some(old(cache)[key])
              else
                && hitCount == old(hitCount)
                && best == BestMatch(knowledgeBase, text, lang)
                && cache == (if best.Some? then old(cache)[key := best.value] else old(cache))
      ensures best.Some? ==>
        best == BestMatch(knowledgeBase, Normalize(userInput), DetectLanguage(userInput))
    {
      var text := Trim(Lower(userInput));
      var detectedLang := DetectLanguage(userInput);
      var cacheKey := CacheKey(text, detectedLang);
      if cacheKey in cache {
        hitCount := hitCount + 1;
        if hitCount >= CacheClearThreshold {
          cache := map[];
          hitCount := 0;
        }
        best := if cacheKey in cache then Some(cache[cacheKey]) else None;
        return;
      }
      best := RankKnowledgeBase(knowledgeBase, text, detectedLang);
      if best.Some? {
        CoherentInsert(knowledgeBase, cache, text, detectedLang, best.value);
        cache := cache[cacheKey := best.value];
      }
    }

    /** The clear button's reset of the memo. */
    method ClearCache()
      requires Valid()
      modifies this
      ensures Valid()
      ensures cache == map[] && hitCount == 0
    {
      cache := map[];
      hitCount := 0;
    }
  }
}
