/** Choosing the answer from the scored candidates: `matches.sort((a, b) =>
    b.score - a.score)` followed by `matches[0].item`. The sort is
    `Array.prototype.sort`, which is stable, so the answer is the FIRST
    candidate, in knowledge-base order, among those with the highest score. */
module Ranking {
  import opened Optional
  import opened Language
  import opened Scoring

  /** `k` is the first index of a highest score in `ms`. */
  predicate IsFirstMax(ms: seq<Match>, k: int) {
    && 0 <= k < |ms|
    && (forall j :: 0 <= j < |ms| ==> ms[j].score <= ms[k].score)
    && (forall j :: 0 <= j < k ==> ms[j].score < ms[k].score)
  }

  /** The first index of a highest score: a later match replaces the current
      one only when it scores strictly more. */
  function FirstMaxIndex(ms: seq<Match>): (k: nat)
    requires ms != []
    ensures IsFirstMax(ms, k)
  {
    if |ms| == 1 then 0
    else
      var init := ms[..|ms| - 1];
      var k := FirstMaxIndex(init);
      assert forall j :: 0 <= j < |init| ==> init[j] == ms[j];
      if ms[|ms| - 1].score > ms[k].score then |ms| - 1 else k
  }

  /** There is only one first maximum. */
  lemma FirstMaxUnique(ms: seq<Match>, k1: int, k2: int)
    requires IsFirstMax(ms, k1) && IsFirstMax(ms, k2)
    ensures k1 == k2
  {
    assert ms[k1].score <= ms[k2].score && ms[k2].score <= ms[k1].score;
  }

  /** The entry `findBestMatch` answers when nothing is cached: none when no
      entry scored, otherwise the item of the first highest-scoring match. */
  function BestMatch(kb: seq<Entry>, text: string, lang: Lang): (r: Option<Entry>)
    ensures r.None? <==> forall j :: 0 <= j < |kb| ==> !IsCandidate(kb[j], text)
    ensures r.Some? ==> r.value in kb && IsCandidate(r.value, text)
  {
    var ms := Matches(kb, text, lang);
    if ms == [] then None else Some(ms[FirstMaxIndex(ms)].item)
  }

  /** The final score of every entry that scored, and `None` for the others,
      in knowledge-base order. */
  function CandidateScores(kb: seq<Entry>, text: string, lang: Lang): (sc: seq<Option<real>>)
    ensures |sc| == |kb|
    ensures forall j :: 0 <= j < |kb| ==>
      sc[j] == if IsCandidate(kb[j], text) then Some(EntryScore(kb[j], text, lang)) else None
  {
    seq(|kb|, j requires 0 <= j < |kb| =>
      if IsCandidate(kb[j], text) then Some(EntryScore(kb[j], text, lang)) else None)
  }

  /** Index `i` holds a score that no score beats and that every earlier score
      is strictly below. */
  predicate IsBestIn(sc: seq<Option<real>>, i: int) {
    && 0 <= i < |sc|
    && sc[i].Some?
    && (forall j :: 0 <= j < |sc| && sc[j].Some? ==> sc[j].value <= sc[i].value)
    && (forall j :: 0 <= j < i && sc[j].Some? ==> sc[j].value < sc[i].value)
  }

  /** Entry `i` of the knowledge base is the answer the ranking promises: a
      candidate whose final score no candidate beats, and which every earlier
      candidate scores strictly below. */
  predicate IsBestEntry(kb: seq<Entry>, text: string, lang: Lang, i: int) {
    IsBestIn(CandidateScores(kb, text, lang), i)
  }

  /** At most one index is the best. */
  lemma BestIndexUnique(sc: seq<Option<real>>, i1: int, i2: int)
    requires IsBestIn(sc, i1) && IsBestIn(sc, i2)
    ensures i1 == i2
  {
  }

  /** Appending an unscored entry keeps the best index. */
  lemma BestInSkip(sc: seq<Option<real>>, i: int)
    requires sc != [] && sc[|sc| - 1].None? && IsBestIn(sc[..|sc| - 1], i)
    ensures IsBestIn(sc, i)
  {
    assert forall j :: 0 <= j < |sc| - 1 ==> sc[..|sc| - 1][j] == sc[j];
  }

  /** Appending a score no higher than the best keeps the best index. */
  lemma BestInKeep(sc: seq<Option<real>>, i: int)
    requires sc != [] && IsBestIn(sc[..|sc| - 1], i)
    requires sc[|sc| - 1].Some? && sc[|sc| - 1].value <= sc[i].value
    ensures IsBestIn(sc, i)
  {
    assert forall j :: 0 <= j < |sc| - 1 ==> sc[..|sc| - 1][j] == sc[j];
  }

  /** Appending a score above the best makes the new index the best. */
  lemma BestInReplace(sc: seq<Option<real>>, i: int)
    requires sc != [] && IsBestIn(sc[..|sc| - 1], i)
    requires sc[|sc| - 1].Some? && sc[|sc| - 1].value > sc[i].value
    ensures IsBestIn(sc, |sc| - 1)
  {
    assert forall j :: 0 <= j < |sc| - 1 ==> sc[..|sc| - 1][j] == sc[j];
  }

  /** A first score after indices without one is the best. */
  lemma BestInFirst(sc: seq<Option<real>>)
    requires sc != [] && sc[|sc| - 1].Some?
    requires forall j :: 0 <= j < |sc| - 1 ==> sc[j].None?
    ensures IsBestIn(sc, |sc| - 1)
  {
  }

  /** The `matches` list built from given optional scores: the entries that
      have a score, paired with it, in order. */
  function MatchesOf(kb: seq<Entry>, sc: seq<Option<real>>): (ms: seq<Match>)
    requires |sc| == |kb|
    ensures ms == [] <==> forall j :: 0 <= j < |sc| ==> sc[j].None?
  {
    if kb == [] then []
    else
      var n := |kb| - 1;
      assert forall j :: 0 <= j < n ==> sc[..n][j] == sc[j];
      MatchesOf(kb[..n], sc[..n]) + (if sc[n].Some? then [Match(kb[n], sc[n].value)] else [])
  }

  /** The source's `matches` are the scored entries with their scores. */
  lemma {:induction false} MatchesAreScoredEntries(kb: seq<Entry>, text: string, lang: Lang)
    ensures Matches(kb, text, lang) == MatchesOf(kb, CandidateScores(kb, text, lang))
  {
    if kb != [] {
      var n := |kb| - 1;
      MatchesAreScoredEntries(kb[..n], text, lang);
      assert CandidateScores(kb, text, lang)[..n] == CandidateScores(kb[..n], text, lang);
    }
  }

  /** Taking the first highest match of the scored entries picks the best
      index. */
  lemma {:induction false} FirstMaxIsBestIndex(kb: seq<Entry>, sc: seq<Option<real>>)
    requires |sc| == |kb|
    ensures MatchesOf(kb, sc) != [] ==>
      exists i :: IsBestIn(sc, i) && kb[i] == MatchesOf(kb, sc)[FirstMaxIndex(MatchesOf(kb, sc))].item
  {
    var ms := MatchesOf(kb, sc);
    if kb != [] && ms != [] {
      var n := |kb| - 1;
      var init, sc' := kb[..n], sc[..n];
      var ms' := MatchesOf(init, sc');
      FirstMaxIsBestIndex(init, sc');
      var w: int;
      if sc[n].None? {
        assert ms == ms';
        var i :| IsBestIn(sc', i) && init[i] == ms'[FirstMaxIndex(ms')].item;
        BestInSkip(sc, i);
        w := i;
      } else if ms' == [] {
        assert ms == [Match(kb[n], sc[n].value)];
        BestInFirst(sc);
        w := n;
      } else {
        var m := Match(kb[n], sc[n].value);
        assert ms == ms' + [m];
        assert ms[..|ms| - 1] == ms';
        var k' := FirstMaxIndex(ms');
        var i :| IsBestIn(sc', i) && init[i] == ms'[k'].item;
        MatchScoreIsIndexScore(init, sc', i, k');
        if m.score > ms'[k'].score {
          assert FirstMaxIndex(ms) == |ms| - 1;
          BestInReplace(sc, i);
          w := n;
        } else {
          assert FirstMaxIndex(ms) == k';
          BestInKeep(sc, i);
          w := i;
        }
      }
      assert IsBestIn(sc, w) && kb[w] == ms[FirstMaxIndex(ms)].item;
    }
  }

  /** The highest match carries the score of the best index. */
  lemma {:induction false} MatchScoreIsIndexScore(kb: seq<Entry>, sc: seq<Option<real>>, i: int, k: int)
    requires |sc| == |kb| && IsBestIn(sc, i)
    requires IsFirstMax(MatchesOf(kb, sc), k)
    ensures MatchesOf(kb, sc)[k].score == sc[i].value
  {
    MatchesOfScores(kb, sc);
    var ms := MatchesOf(kb, sc);
    var j :| 0 <= j < |sc| && sc[j] == Some(ms[k].score);
    MatchesOfContains(kb, sc, i);
    var k2 :| 0 <= k2 < |ms| && ms[k2].score == sc[i].value;
    assert ms[k2].score <= ms[k].score;
  }

  /** Every match carries the score of some index. */
  lemma {:induction false} MatchesOfScores(kb: seq<Entry>, sc: seq<Option<real>>)
    requires |sc| == |kb|
    ensures forall k :: 0 <= k < |MatchesOf(kb, sc)| ==>
      exists j :: 0 <= j < |sc| && sc[j] == Some(MatchesOf(kb, sc)[k].score)
  {
    if kb != [] {
      var n := |kb| - 1;
      var ms, ms' := MatchesOf(kb, sc), MatchesOf(kb[..n], sc[..n]);
      MatchesOfScores(kb[..n], sc[..n]);
      assert ms == ms' + (if sc[n].Some? then [Match(kb[n], sc[n].value)] else []);
      forall k | 0 <= k < |ms| ensures exists j :: 0 <= j < |sc| && sc[j] == Some(ms[k].score) {
        if k < |ms'| {
          var j :| 0 <= j < n && sc[..n][j] == Some(ms'[k].score);
          assert ms[k] == ms'[k];
          assert sc[j] == Some(ms[k].score);
        } else {
          assert sc[n] == Some(ms[k].score);
        }
      }
    } else {
      assert MatchesOf(kb, sc) == [];
    }
  }

  /** Every scored index has a match with its score. */
  lemma {:induction false} MatchesOfContains(kb: seq<Entry>, sc: seq<Option<real>>, i: int)
    requires |sc| == |kb| && 0 <= i < |sc| && sc[i].Some?
    ensures exists k :: 0 <= k < |MatchesOf(kb, sc)| && MatchesOf(kb, sc)[k].score == sc[i].value
  {
    var n := |kb| - 1;
    var ms := MatchesOf(kb, sc);
    if i == n {
      assert ms[|ms| - 1].score == sc[i].value;
    } else {
      MatchesOfContains(kb[..n], sc[..n], i);
      var k :| 0 <= k < |MatchesOf(kb[..n], sc[..n])| && MatchesOf(kb[..n], sc[..n])[k].score == sc[..n][i].value;
      assert ms[k] == MatchesOf(kb[..n], sc[..n])[k];
    }
  }

  /** The answer, when there is one, is the knowledge-base entry at the best
      index: the first among the highest final scores. */
  lemma BestMatchIsBestEntry(kb: seq<Entry>, text: string, lang: Lang)
    ensures BestMatch(kb, text, lang).Some? ==>
      exists i :: IsBestEntry(kb, text, lang, i) && kb[i] == BestMatch(kb, text, lang).value
  {
    MatchesAreScoredEntries(kb, text, lang);
    FirstMaxIsBestIndex(kb, CandidateScores(kb, text, lang));
  }

  /** Scores never increase along `s`: the order `(a, b) => b.score - a.score`
      sorts into. */
  predicate Descending(s: seq<Match>) {
    forall i, j :: 0 <= i < j < |s| ==> s[i].score >= s[j].score
  }

  /** The matches of `s` that score exactly `v`, in their order in `s`. A sort
      is stable when it leaves every such subsequence as it was. */
  function WithScore(s: seq<Match>, v: real): seq<Match> {
    if s == [] then [] else (if s[0].score == v then [s[0]] else []) + WithScore(s[1..], v)
  }

  lemma {:induction false} WithScoreConcat(a: seq<Match>, b: seq<Match>, v: real)
    ensures WithScore(a + b, v) == WithScore(a, v) + WithScore(b, v)
  {
    if a == [] {
      assert a + b == b;
    } else {
      assert (a + b)[1..] == a[1..] + b;
      WithScoreConcat(a[1..], b, v);
    }
  }

  lemma {:induction false} WithScoreNone(s: seq<Match>, v: real)
    requires forall j :: 0 <= j < |s| ==> s[j].score != v
    ensures WithScore(s, v) == []
  {
    if s != [] {
      WithScoreNone(s[1..], v);
    }
  }

  /** The matches of `s + [x]` with score `v` are those of `s`, then `x` if it
      scores `v`. */
  lemma WithScoreSnoc(s: seq<Match>, x: Match)
    ensures forall v :: WithScore(s + [x], v) == WithScore(s, v) + (if x.score == v then [x] else [])
  {
    forall v ensures WithScore(s + [x], v) == WithScore(s, v) + (if x.score == v then [x] else []) {
      WithScoreConcat(s, [x], v);
      assert WithScore([x], v) == (if x.score == v then [x] else []) + WithScore([], v);
    }
  }

  /** The sequence `s` with `x` inserted at `p`. */
  function InsertAt(s: seq<Match>, p: int, x: Match): seq<Match>
    requires 0 <= p <= |s|
  {
    s[..p] + [x] + s[p..]
  }

  /** Inserting `x` into a descending sequence after every match that scores
      at least as much, and before every match that scores less, keeps it
      descending. */
  lemma InsertDescending(s: seq<Match>, p: int, x: Match)
    requires Descending(s) && 0 <= p <= |s|
    requires forall j :: 0 <= j < p ==> s[j].score >= x.score
    requires forall j :: p <= j < |s| ==> s[j].score < x.score
    ensures Descending(InsertAt(s, p, x))
  {
    var t := InsertAt(s, p, x);
    assert forall j :: 0 <= j < p ==> t[j] == s[j];
    assert t[p] == x;
    assert forall j :: p < j < |t| ==> t[j] == s[j - 1];
  }

  /** The insertion appends `x` to the matches of its own score and changes
      no other score's matches. */
  lemma InsertStableAt(s: seq<Match>, p: int, x: Match, v: real)
    requires 0 <= p <= |s|
    requires forall j :: p <= j < |s| ==> s[j].score < x.score
    ensures WithScore(InsertAt(s, p, x), v) == WithScore(s, v) + (if x.score == v then [x] else [])
  {
    assert s == s[..p] + s[p..];
    WithScoreConcat(s[..p] + [x], s[p..], v);
    WithScoreSnoc(s[..p], x);
    WithScoreConcat(s[..p], s[p..], v);
    if x.score == v {
      WithScoreNone(s[p..], v);
    }
  }

  lemma InsertStable(s: seq<Match>, p: int, x: Match)
    requires 0 <= p <= |s|
    requires forall j :: p <= j < |s| ==> s[j].score < x.score
    ensures multiset(InsertAt(s, p, x)) == multiset(s) + multiset{x}
    ensures forall v :: WithScore(InsertAt(s, p, x), v)
                     == WithScore(s, v) + (if x.score == v then [x] else [])
  {
    assert s == s[..p] + s[p..];
    forall v ensures WithScore(InsertAt(s, p, x), v)
                  == WithScore(s, v) + (if x.score == v then [x] else []) {
      InsertStableAt(s, p, x, v);
    }
  }

  /** Every later element of a descending sequence scores at most as much as
      an earlier one that scores below `x`. */
  lemma DescendingTail(s: seq<Match>, p: int, x: Match)
    requires Descending(s) && 0 <= p <= |s|
    requires p < |s| ==> s[p].score < x.score
    ensures forall j :: p <= j < |s| ==> s[j].score < x.score
  {
  }

  /** The first position whose match scores below `x`, or the end. */
  method InsertionPoint(s: seq<Match>, x: Match) returns (p: int)
    ensures 0 <= p <= |s|
    ensures forall j :: 0 <= j < p ==> s[j].score >= x.score
    ensures p < |s| ==> s[p].score < x.score
  {
    p := 0;
    while p < |s| && s[p].score >= x.score
      invariant 0 <= p <= |s|
      invariant forall j :: 0 <= j < p ==> s[j].score >= x.score
    {
      p := p + 1;
    }
  }

  /** `matches.sort((a, b) => b.score - a.score)`: a stable sort into
      descending score order, here by insertion. */
  method SortByScore(ms: seq<Match>) returns (sorted: seq<Match>)
    ensures Descending(sorted)
    ensures multiset(sorted) == multiset(ms)
    ensures forall v :: WithScore(sorted, v) == WithScore(ms, v)
  {
    sorted := [];
    var i := 0;
    while i < |ms|
      invariant 0 <= i <= |ms|
      invariant Descending(sorted)
      invariant multiset(sorted) == multiset(ms[..i])
      invariant forall v :: WithScore(sorted, v) == WithScore(ms[..i], v)
    {
      var x := ms[i];
      var p := InsertionPoint(sorted, x);
      DescendingTail(sorted, p, x);
      InsertDescending(sorted, p, x);
      InsertStable(sorted, p, x);
      WithScoreSnoc(ms[..i], x);
      assert ms[..i + 1] == ms[..i] + [x];
      sorted := InsertAt(sorted, p, x);
      i := i + 1;
    }
    assert ms[..i] == ms;
  }

  /** After a stable descending sort, the first element scores the maximum. */
  lemma SortedHeadScore(ms: seq<Match>, sorted: seq<Match>)
    requires ms != []
    requires Descending(sorted)
    requires multiset(sorted) == multiset(ms)
    ensures sorted != [] && sorted[0].score == ms[FirstMaxIndex(ms)].score
  {
    var k := FirstMaxIndex(ms);
    assert ms[k] in multiset(sorted);
    var t :| 0 <= t < |sorted| && sorted[t] == ms[k];
    assert sorted[0] in multiset(ms);
    var j :| 0 <= j < |ms| && ms[j] == sorted[0];
    assert sorted[0].score >= sorted[t].score;
  }

  /** The first match of score `ms[k].score` is `ms[k]` when no earlier match
      has that score. */
  lemma WithScoreHead(ms: seq<Match>, k: int)
    requires 0 <= k < |ms|
    requires forall j :: 0 <= j < k ==> ms[j].score != ms[k].score
    ensures WithScore(ms, ms[k].score) != [] && WithScore(ms, ms[k].score)[0] == ms[k]
  {
    var v := ms[k].score;
    assert ms == ms[..k] + ms[k..];
    WithScoreConcat(ms[..k], ms[k..], v);
    WithScoreNone(ms[..k], v);
    assert WithScore(ms[k..], v) == [ms[k]] + WithScore(ms[k + 1..], v);
  }

  /** After a stable descending sort, the first element is the first
      highest-scoring match of the unsorted list. */
  lemma StableSortHead(ms: seq<Match>, sorted: seq<Match>)
    requires ms != []
    requires Descending(sorted)
    requires multiset(sorted) == multiset(ms)
    requires forall v :: WithScore(sorted, v) == WithScore(ms, v)
    ensures sorted != [] && sorted[0] == ms[FirstMaxIndex(ms)]
  {
    var k := FirstMaxIndex(ms);
    var v := ms[k].score;
    SortedHeadScore(ms, sorted);
    WithScoreHead(sorted, 0);
    WithScoreHead(ms, k);
    assert WithScore(sorted, v) == WithScore(ms, v);
  }
}
