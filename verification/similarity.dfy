/** `calculateSimilarity`: a cheap, position-sensitive lexical similarity of
    two strings, with a containment bonus, normalised by the longer length. */
module SimilarityScorer {
  import opened Text

  /** The values the computation can produce in JavaScript: an exact rational
      (floating-point rounding is not modelled) or NaN, the result of 0/0. A
      comparison such as `NaN > 0.5` is false. */
  datatype JsNumber = NaN | Num(value: real)

  function Min(a: nat, b: nat): nat { if a <= b then a else b }

  function Max(a: nat, b: nat): nat { if a <= b then b else a }

  /** The number of positions below `n` at which `s1` and `s2` agree. It is
      `n` exactly when their first `n` characters are the same. */
  function Overlap(s1: string, s2: string, n: nat): (r: nat)
    requires n <= |s1| && n <= |s2|
    ensures r <= n
    ensures r == n <==> s1[..n] == s2[..n]
  {
    if n == 0 then 0
    else
      assert s1[..n] == s1[..n - 1] + [s1[n - 1]] && s2[..n] == s2[..n - 1] + [s2[n - 1]];
      assert s1[..n] == s2[..n] ==> s1[..n - 1] == s1[..n][..n - 1] == s2[..n][..n - 1];
      Overlap(s1, s2, n - 1) + (if s1[n - 1] == s2[n - 1] then 1 else 0)
  }

  /** The containment bonus applies when either lowered string contains the
      other. */
  predicate EitherContains(s1: string, s2: string) {
    Contains(s1, s2) || Contains(s2, s1)
  }

  /** The overlap plus the containment bonus `0.3 * minLen`, before division. */
  function RawSimilarity(s1: string, s2: string): real {
    var minLen := Min(|s1|, |s2|);
    var overlap := Overlap(s1, s2, minLen) as real;
    if EitherContains(s1, s2) then overlap + (minLen as real) * 0.3 else overlap
  }

  /** `calculateSimilarity(str1, str2)`, as a value. It is NaN exactly when both
      strings are empty (the source divides 0 by 0). */
  function Similarity(str1: string, str2: string): (r: JsNumber)
    ensures r == NaN <==> str1 == [] && str2 == []
  {
    var s1 := Lower(str1);
    var s2 := Lower(str2);
    var maxLen := Max(|s1|, |s2|);
    if maxLen == 0 then NaN else Num(RawSimilarity(s1, s2) / maxLen as real)
  }

  /** `calculateSimilarity`, with its counting loop. */
  method CalculateSimilarity(str1: string, str2: string) returns (r: JsNumber)
    ensures r == Similarity(str1, str2)
  {
    var s1 := Lower(str1);
    var s2 := Lower(str2);
    var overlap: real := 0.0;
    var minLen := Min(|s1|, |s2|);
    var i := 0;
    while i < minLen
      invariant 0 <= i <= minLen
      invariant overlap == Overlap(s1, s2, i) as real
    {
      if s1[i] == s2[i] {
        overlap := overlap + 1.0;
      }
      i := i + 1;
    }
    if Contains(s1, s2) || Contains(s2, s1) {
      overlap := overlap + (minLen as real) * 0.3;
    }
    assert overlap == RawSimilarity(s1, s2);
    var maxLen := Max(|s1|, |s2|);
    if maxLen == 0 {
      r := NaN;
    } else {
      r := Num(overlap / maxLen as real);
    }
  }

  lemma {:induction false} OverlapSymmetric(s1: string, s2: string, n: nat)
    requires n <= |s1| && n <= |s2|
    ensures Overlap(s1, s2, n) == Overlap(s2, s1, n)
  {
    if n > 0 {
      OverlapSymmetric(s1, s2, n - 1);
    }
  }

  /** The similarity does not depend on the order of its arguments. */
  lemma SimilaritySymmetric(a: string, b: string)
    ensures Similarity(a, b) == Similarity(b, a)
  {
    var s1, s2 := Lower(a), Lower(b);
    OverlapSymmetric(s1, s2, Min(|s1|, |s2|));
    assert RawSimilarity(s1, s2) == RawSimilarity(s2, s1);
  }

  lemma RawSimilarityBounds(s1: string, s2: string)
    ensures 0.0 <= RawSimilarity(s1, s2) <= (Min(|s1|, |s2|) as real) * 1.3
    ensures RawSimilarity(s1, s2) <= 1.3 * Max(|s1|, |s2|) as real
    ensures !EitherContains(s1, s2) ==> RawSimilarity(s1, s2) <= Min(|s1|, |s2|) as real
  {
  }

  /** A longer string cannot occur in a shorter one, and a string occurs in
      one of the same length only when the two are equal. */
  lemma ContainsLength(s: string, p: string)
    requires Contains(s, p)
    ensures |p| <= |s|
    ensures |p| == |s| ==> s == p
  {
    var i :| OccursAt(s, p, i);
    if |p| == |s| {
      assert i == 0 && s[0..|s|] == s;
    }
  }

  lemma QuotientFacts(raw: real, m: real, c: real)
    requires 0.0 < m && 0.0 <= raw
    ensures 0.0 <= raw / m
    ensures raw <= c * m ==> raw / m <= c
    ensures raw < c * m ==> raw / m < c
    ensures raw / m == c <==> raw == c * m
  {
  }

  lemma QuotientAtMostMaximum(raw: real, m: real)
    requires 0.0 < m && 0.0 <= raw <= 1.3 * m
    ensures 0.0 <= raw / m <= 1.3
  {
  }

  lemma RawQuotientBounds(s1: string, s2: string)
    requires Max(|s1|, |s2|) > 0
    ensures 0.0 <= RawSimilarity(s1, s2) / Max(|s1|, |s2|) as real <= 1.3
  {
    var raw := RawSimilarity(s1, s2);
    var m := Max(|s1|, |s2|) as real;
    RawSimilarityBounds(s1, s2);
    assert 0.0 < m;
    assert 0.0 <= raw <= 1.3 * m;
    QuotientAtMostMaximum(raw, m);
  }

  /** The similarity of two strings not both empty is their raw score over
      the longer length. */
  lemma SimilarityValue(a: string, b: string)
    requires a != [] || b != []
    ensures Max(|Lower(a)|, |Lower(b)|) > 0
    ensures Similarity(a, b)
         == Num(RawSimilarity(Lower(a), Lower(b)) / Max(|Lower(a)|, |Lower(b)|) as real)
  {
  }

  /** Whenever it is a number, the similarity lies in [0, 1.3]: the overlap is
      at most the shorter length, the bonus at most 0.3 times it, and the
      shorter length is at most the longer. */
  lemma SimilarityBounds(a: string, b: string)
    requires a != [] || b != []
    ensures Similarity(a, b).Num?
    ensures 0.0 <= Similarity(a, b).value <= 1.3
  {
    SimilarityValue(a, b);
    RawQuotientBounds(Lower(a), Lower(b));
  }

  /** A non-empty string compared with itself scores exactly 1.3: every
      position agrees (1.0) and each contains the other (0.3). */
  lemma SimilarityOfEqual(s: string)
    requires s != []
    ensures Similarity(s, s) == Num(1.3)
  {
    var t := Lower(s);
    assert OccursAt(t, t, 0);
    assert Overlap(t, t, |t|) == |t|;
    assert RawSimilarity(t, t) == 1.3 * |t| as real;
    SimilarityValue(s, s);
    assert Max(|t|, |t|) == |t|;
    QuotientFacts(RawSimilarity(t, t), |t| as real, 1.3);
  }

  /** The converse: a similarity of 1.3 means the two strings are equal up to
      ASCII case. */
  lemma SimilarityMaximalOnlyForEqual(a: string, b: string)
    requires Similarity(a, b) == Num(1.3)
    ensures Lower(a) == Lower(b)
  {
    var s1, s2 := Lower(a), Lower(b);
    var minLen := Min(|s1|, |s2|);
    var maxLen := Max(|s1|, |s2|);
    var raw := RawSimilarity(s1, s2);
    SimilarityValue(a, b);
    RawSimilarityBounds(s1, s2);
    QuotientFacts(raw, maxLen as real, 1.3);
    assert raw == 1.3 * maxLen as real;
    if !EitherContains(s1, s2) {
      assert false;
    }
    if Contains(s1, s2) {
      ContainsLength(s1, s2);
    } else {
      ContainsLength(s2, s1);
    }
    if minLen < maxLen {
      assert false;
    }
  }

  /** Two strings neither of which contains the other (after lowering) score
      below 1.0: the overlap is at most the shorter length, and it reaches
      the longer length only when the strings agree everywhere. */
  lemma SimilarityBelowOneWithoutContainment(a: string, b: string)
    requires !EitherContains(Lower(a), Lower(b))
    ensures Similarity(a, b).Num? && Similarity(a, b).value < 1.0
  {
    var s1, s2 := Lower(a), Lower(b);
    var minLen := Min(|s1|, |s2|);
    var maxLen := Max(|s1|, |s2|);
    assert OccursAt(s1, [], 0) && OccursAt(s2, [], 0);
    assert s1 != [] && s2 != [];
    var overlap := Overlap(s1, s2, minLen);
    assert RawSimilarity(s1, s2) < 1.0 * maxLen as real;
    SimilarityValue(a, b);
    QuotientFacts(RawSimilarity(s1, s2), maxLen as real, 1.0);
  }
}
