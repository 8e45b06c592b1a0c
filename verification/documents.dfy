/** `detectDocumentType`: an application essay is classed as a graduate
    research plan when it uses research vocabulary, and as an undergraduate
    statement otherwise. */
module Documents {
  import opened Text

  datatype DocumentType = Graduate | Undergraduate

  /** The alternatives of the graduate pattern. */
  const GraduateMarkers: seq<string> :=
    ["先行研究", "先行文献", "Gap", "仮説", "実証", "研究方法", "methodology"]

  /** The alternatives of the undergraduate pattern. */
  const UndergraduateMarkers: seq<string> :=
    ["志望理由書", "学部", "総合政策", "興味を持ったきっかけ"]

  /** `/m1|m2|.../i.test(text)`: some alternative occurs in `text`, ignoring
      case. */
  function MatchesAny(text: string, markers: seq<string>): (r: bool)
    ensures r <==> exists i :: 0 <= i < |markers| && Contains(Lower(text), Lower(markers[i]))
  {
    if markers == [] then false
    else
      var n := |markers| - 1;
      assert forall i :: 0 <= i < n ==> markers[..n][i] == markers[i];
      MatchesAny(text, markers[..n]) || Contains(Lower(text), Lower(markers[n]))
  }

  /** A pattern test does not depend on the case of the text. */
  lemma MatchesAnyIgnoresCase(text: string, markers: seq<string>)
    ensures MatchesAny(Upper(text), markers) == MatchesAny(text, markers)
  {
    LowerOfUpper(text);
  }

  /** `detectDocumentType(text)`: graduate exactly when a graduate marker
      occurs; the undergraduate test that follows leads to the same answer
      whichever way it goes. */
  function DetectDocumentType(text: string): (r: DocumentType)
    ensures r == Graduate <==> MatchesAny(text, GraduateMarkers)
  {
    if MatchesAny(text, GraduateMarkers) then Graduate
    else if MatchesAny(text, UndergraduateMarkers) then Undergraduate
    else Undergraduate
  }

  /** Any occurrence of a graduate marker, in any ASCII case, makes the text a
      graduate one. */
  lemma GraduateMarkerDecides(text: string, m: nat, k: int)
    requires m < |GraduateMarkers| && OccursAt(Lower(text), Lower(GraduateMarkers[m]), k)
    ensures DetectDocumentType(text) == Graduate
  {
    assert Contains(Lower(text), Lower(GraduateMarkers[m]));
  }

  /** A marker written verbatim in the text is found. */
  lemma VerbatimMarkerDecides(text: string, m: nat, k: int)
    requires m < |GraduateMarkers| && OccursAt(text, GraduateMarkers[m], k)
    ensures DetectDocumentType(text) == Graduate
  {
    LowerKeepsOccurrence(text, GraduateMarkers[m], k);
    GraduateMarkerDecides(text, m, k);
  }

  /** Upper-casing the text does not change its class: `GAP` counts as
      `Gap`, `METHODOLOGY` as `methodology`. */
  lemma DocumentTypeIgnoresCase(text: string)
    ensures DetectDocumentType(Upper(text)) == DetectDocumentType(text)
  {
    MatchesAnyIgnoresCase(text, GraduateMarkers);
  }
}
