/** `evaluateDocument`: a fixed checklist over an uploaded essay. Four checks
    (motivation, policy fit, future plans, paragraph structure) each yield a
    praise or a suggestion; the number of passes picks a verdict; the result
    is one HTML report wrapped as `{ issues: [], suggestions: [report] }`. */
module Evaluator {
  import opened Text
  import opened Documents

  datatype Evaluation = Evaluation(issues: seq<string>, suggestions: seq<string>)

  const MotivationMarkers: seq<string> := ["きっかけ", "興味", "好き", "感動"]
  const PolicyMarkers: seq<string> := ["政策", "環境政策", "文化政策", "著作権"]
  const FutureMarkers: seq<string> := ["卒業後", "将来", "貢献"]

  predicate HasMotivation(text: string) { MatchesAny(text, MotivationMarkers) }
  predicate HasPolicy(text: string) { MatchesAny(text, PolicyMarkers) }
  predicate HasFuture(text: string) { MatchesAny(text, FutureMarkers) }

  /** `paraCount`: the `\n`-separated lines of `text` that are not blank. It
      is zero exactly when the whole text is blank. */
  function ParagraphCount(text: string): (r: nat)
    ensures r == 0 <==> !HasContent(text)
  {
    var lines := SplitOn(text, "\n");
    SplitJoin(text, "\n");
    assert !HasContent("\n") by { assert "\n"[0] == '\n'; }
    JoinContent(lines, "\n");
    CountWithContent(lines)
  }

  /** The structure check passes with eight or more paragraphs. */
  predicate HasStructure(text: string) { ParagraphCount(text) >= 8 }

  /** The number of the four checks that pass. */
  function Passes(text: string): nat {
    (if HasMotivation(text) then 1 else 0) + (if HasPolicy(text) then 1 else 0)
    + (if HasFuture(text) then 1 else 0) + (if HasStructure(text) then 1 else 0)
  }

  const Step1: string := "步骤1: 提取关键词 → 动机、政策结合、未来展望、段落结构"
  const Step4: string := "步骤4: 自纠错 → 对比PDF案例，避免泛叙事"

  /** The length bucket named in step 2: under 400, under 800, or longer. */
  function LengthLabel(length: nat): string {
    if length < 400 then "精炼" else if length < 800 then "适中" else "饱满"
  }

  /** The length bucket named in the first praise. */
  function LengthPraise(length: nat): string {
    if length < 400 then "篇幅精炼" else if length < 800 then "长度适中" else "篇幅饱满"
  }

  /** `reasoningSteps` for given findings: four steps, the second naming the
      length bucket and the third the motivation and policy findings. */
  function StepsFor(length: nat, motivation: bool, policy: bool): seq<string> {
    [ Step1
    , "步骤2: 长度分析 → " + LengthLabel(length)
    , "步骤3: 检查逻辑链 → " + (if motivation then "动机鲜明" else "动机稍弱")
        + "; " + (if policy then "契合高" else "契合待强化")
    , Step4 ]
  }

  function ReasoningSteps(text: string): seq<string> {
    StepsFor(|text|, HasMotivation(text), HasPolicy(text))
  }

  const MotivationPraise: string := "动机鲜明，触发点生动"
  const PolicyPraise: string := "与政策契合度高"
  const FuturePraise: string := "展望具体，方向清晰"
  const StructurePraise: string := "段落结构清晰"
  const MotivationSuggestion: string := "动机可补充具体细节"
  const PolicySuggestion: string := "政策结合可强化"
  const FutureSuggestion: string := "未来行动可落地化"
  const StructureSuggestion: string := "段落可细分"

  /** `praises` for given findings: the length praise, then the praise of
      each passing check. */
  function PraisesFor(length: nat, motivation: bool, policy: bool, future: bool, paraCount: nat): seq<string> {
    ["● " + LengthPraise(length)]
    + (if motivation then [MotivationPraise] else [])
    + (if policy then [PolicyPraise] else [])
    + (if future then [FuturePraise] else [])
    + (if paraCount >= 8 then [StructurePraise] else [])
  }

  /** `suggestions` for given findings: the suggestion of each failing check. */
  function SuggestionsFor(motivation: bool, policy: bool, future: bool, paraCount: nat): seq<string> {
    (if motivation then [] else [MotivationSuggestion])
    + (if policy then [] else [PolicySuggestion])
    + (if future then [] else [FutureSuggestion])
    + (if paraCount >= 8 then [] else [StructureSuggestion])
  }

  function Praises(text: string): seq<string> {
    PraisesFor(|text|, HasMotivation(text), HasPolicy(text), HasFuture(text), ParagraphCount(text))
  }

  function Suggestions(text: string): seq<string> {
    SuggestionsFor(HasMotivation(text), HasPolicy(text), HasFuture(text), ParagraphCount(text))
  }

  const TopVerdict: string := "水准较高，已具竞争力"
  const MiddleVerdict: string := "基础扎实，还有空间"
  const BottomVerdict: string := "动机真挚，可再打磨"

  /** `overall`, from the number of praises besides the length praise. */
  function Verdict(praiseCount: int): string {
    if praiseCount >= 4 then TopVerdict
    else if praiseCount >= 3 then MiddleVerdict
    else BottomVerdict
  }

  function Header(docType: DocumentType): string {
    "<b>【文书审计 - " + (if docType == Graduate then "大学院" else "学部") + "模式】</b><br>"
  }

  /** One item and its line break. */
  function Line(item: string): string {
    item + "<br>"
  }

  /** Each item followed by a line break, as the `forEach` loops append them. */
  function Lines(items: seq<string>): string {
    if items == [] then []
    else Lines(items[..|items| - 1]) + Line(items[|items| - 1])
  }

  /** Item number `k` of a numbered list. */
  function NumberedLine(k: nat, item: string): string {
    DecimalString(k) + ". " + item + "<br>"
  }

  /** Each item numbered from 1 and followed by a line break. */
  function Numbered(items: seq<string>): string {
    if items == [] then []
    else Numbered(items[..|items| - 1]) + NumberedLine(|items|, items[|items| - 1])
  }

  const VerdictHeading: string := "<br><b>整体评价：</b> "
  const SuggestionHeading: string := "<br><br><b>可优化建议</b><br>"
  const ExampleBlock: string :=
    "<br><b>实战范文示例</b><br>原句：\"私が総合政策に興味を持ったきっかけは...\"<br>建议：\"絵を描く中で自然の美しさを感じ、初音ミクのコミュニティで繋がる力に感動しました。これらを支える政策を学び、地域活性化に貢献したいです。\""
  const ExcellentNote: string := "<br><br>整体优秀！结构完整、动机真挚。"
  const DeepAuditNote: string :=
    "<br><br><b>【深度审计】</b>网页端初步扫描。要逐段重构，请加微信 qiuwu999 发送完整文档。"
  const GraduateNote: string := "学术性较强。建议加微信 qiuwu999 深度分析。"

  /** The part of the report after the verdict: the numbered suggestions and
      the worked example, or the note that the essay is excellent. */
  function Closing(suggestions: seq<string>): string {
    if |suggestions| > 0 then SuggestionHeading + Numbered(suggestions) + ExampleBlock
    else ExcellentNote
  }

  /** The report for a document type and the findings of the checks: for a
      non-graduate essay the steps, the praises, the verdict, the closing
      part and the note on the deeper audit; for a graduate plan only the
      steps and a referral. */
  function ReportFor(docType: DocumentType, length: nat, motivation: bool, policy: bool,
                     future: bool, paraCount: nat): string
  {
    var steps := StepsFor(length, motivation, policy);
    if docType != Graduate then
      var praises := PraisesFor(length, motivation, policy, future, paraCount);
      Header(docType) + Lines(steps) + Lines(praises)
      + VerdictHeading + Verdict(|praises| - 1)
      + Closing(SuggestionsFor(motivation, policy, future, paraCount)) + DeepAuditNote
    else
      Header(Graduate) + Lines(steps) + GraduateNote
  }

  /** The report `evaluateDocument` returns for `text`. */
  function AuditReport(text: string): string {
    ReportFor(DetectDocumentType(text), |text|, HasMotivation(text), HasPolicy(text),
              HasFuture(text), ParagraphCount(text))
  }

  /** `output += `${item}<br>`` for every item. */
  method AppendLines(output: string, items: seq<string>) returns (r: string)
    ensures r == output + Lines(items)
  {
    r := output;
    var i := 0;
    while i < |items|
      invariant 0 <= i <= |items|
      invariant r == output + Lines(items[..i])
    {
      assert items[..i + 1][..i] == items[..i];
      AppendAssoc(output, Lines(items[..i]), Line(items[i]));
      r := r + Line(items[i]);
      i := i + 1;
    }
    assert items[..i] == items;
  }

  /** `output += `${i+1}. ${s}<br>`` for every suggestion. */
  method AppendNumbered(output: string, items: seq<string>) returns (r: string)
    ensures r == output + Numbered(items)
  {
    r := output;
    var i := 0;
    while i < |items|
      invariant 0 <= i <= |items|
      invariant r == output + Numbered(items[..i])
    {
      assert items[..i + 1][..i] == items[..i];
      AppendAssoc(output, Numbered(items[..i]), NumberedLine(i + 1, items[i]));
      r := r + NumberedLine(i + 1, items[i]);
      i := i + 1;
    }
    assert items[..i] == items;
  }

  lemma AppendAssoc(a: string, b: string, c: string)
    ensures a + b + c == a + (b + c)
  {
  }

  lemma ConcatAssoc(a: string, b: string, c: string, d: string)
    ensures a + b + c + d == a + (b + c + d)
  {
    assert a + b + c == a + (b + c);
    assert a + (b + c) + d == a + (b + c + d);
  }

  /** The suggestions block or the excellence note, appended to `output`. */
  method AppendClosing(output: string, suggestions: seq<string>) returns (r: string)
    ensures r == output + Closing(suggestions)
  {
    if |suggestions| > 0 {
      r := output + SuggestionHeading;
      r := AppendNumbered(r, suggestions);
      r := r + ExampleBlock;
      ConcatAssoc(output, SuggestionHeading, Numbered(suggestions), ExampleBlock);
    } else {
      r := output + ExcellentNote;
    }
  }

  /** The four pushes onto `reasoningSteps`. */
  method CollectSteps(length: nat, motivation: bool, policy: bool) returns (steps: seq<string>)
    ensures steps == StepsFor(length, motivation, policy)
  {
    steps := [];
    steps := steps + [Step1];
    steps := steps + ["步骤2: 长度分析 → " + LengthLabel(length)];
    steps := steps + ["步骤3: 检查逻辑链 → " + (if motivation then "动机鲜明" else "动机稍弱")
                      + "; " + (if policy then "契合高" else "契合待强化")];
    steps := steps + [Step4];
  }

  /** The four checks of a non-graduate essay, each pushing a praise or a
      suggestion, after the length praise. */
  method CollectFindings(length: nat, motivation: bool, policy: bool, future: bool, paraCount: nat)
    returns (praises: seq<string>, suggestions: seq<string>)
    ensures praises == PraisesFor(length, motivation, policy, future, paraCount)
    ensures suggestions == SuggestionsFor(motivation, policy, future, paraCount)
  {
    praises, suggestions := [], [];
    praises := praises + ["● " + LengthPraise(length)];
    if motivation { praises := praises + [MotivationPraise]; }
    else { suggestions := suggestions + [MotivationSuggestion]; }
    assert praises == ["● " + LengthPraise(length)] + (if motivation then [MotivationPraise] else []);
    assert suggestions == (if motivation then [] else [MotivationSuggestion]);
    ghost var p1, s1 := praises, suggestions;
    if policy { praises := praises + [PolicyPraise]; }
    else { suggestions := suggestions + [PolicySuggestion]; }
    assert praises == p1 + (if policy then [PolicyPraise] else []);
    assert suggestions == s1 + (if policy then [] else [PolicySuggestion]);
    ghost var p2, s2 := praises, suggestions;
    if future { praises := praises + [FuturePraise]; }
    else { suggestions := suggestions + [FutureSuggestion]; }
    assert praises == p2 + (if future then [FuturePraise] else []);
    assert suggestions == s2 + (if future then [] else [FutureSuggestion]);
    ghost var p3, s3 := praises, suggestions;
    if paraCount >= 8 { praises := praises + [StructurePraise]; }
    else { suggestions := suggestions + [StructureSuggestion]; }
    assert praises == p3 + (if paraCount >= 8 then [StructurePraise] else []);
    assert suggestions == s3 + (if paraCount >= 8 then [] else [StructureSuggestion]);
  }

  /** The non-graduate report assembled from its parts, piece by piece. */
  method AppendReport(docType: DocumentType, steps: seq<string>, praises: seq<string>,
                      overall: string, suggestions: seq<string>) returns (output: string)
    ensures output == Header(docType) + Lines(steps) + Lines(praises)
                      + VerdictHeading + overall + Closing(suggestions) + DeepAuditNote
  {
    output := Header(docType);
    output := AppendLines(output, steps);
    output := AppendLines(output, praises);
    output := output + VerdictHeading + overall;
    output := AppendClosing(output, suggestions);
    output := output + DeepAuditNote;
  }

  /** The body of `evaluateDocument` once the document type and the checks
      are known: the reasoning steps, then either the full non-graduate
      report or the short graduate one. */
  method ComposeReport(docType: DocumentType, length: nat, hasMotivation: bool, hasPolicy: bool,
                       hasFuture: bool, paraCount: nat) returns (output: string)
    ensures output == ReportFor(docType, length, hasMotivation, hasPolicy, hasFuture, paraCount)
  {
    var reasoningSteps := CollectSteps(length, hasMotivation, hasPolicy);
    if docType != Graduate {
      var praises, suggestions := CollectFindings(length, hasMotivation, hasPolicy, hasFuture, paraCount);
      var praiseCount := |praises| - 1;
      var overall := if praiseCount >= 4 then TopVerdict
                     else if praiseCount >= 3 then MiddleVerdict
                     else BottomVerdict;
      assert overall == Verdict(|praises| - 1);
      output := AppendReport(docType, reasoningSteps, praises, overall, suggestions);
    } else {
      output := Header(Graduate);
      output := AppendLines(output, reasoningSteps);
      output := output + GraduateNote;
    }
  }

  /** `evaluateDocument(text)`: always no issues and exactly one suggestion,
      the audit report. */
  method EvaluateDocument(text: string) returns (evaluation: Evaluation)
    ensures evaluation.issues == [] && evaluation.suggestions == [AuditReport(text)]
  {
    var docType := DetectDocumentType(text);
    var length := |text|;
    var paraCount := CountWithContent(SplitOn(text, "\n"));
    var hasMotivation := MatchesAny(text, MotivationMarkers);
    var hasPolicy := MatchesAny(text, PolicyMarkers);
    var hasFuture := MatchesAny(text, FutureMarkers);
    var output := ComposeReport(docType, length, hasMotivation, hasPolicy, hasFuture, paraCount);
    evaluation := Evaluation([], [output]);
  }

  /** Each check adds exactly one entry: the praises are the length praise
      plus one per pass, the suggestions one per failure. */
  lemma PraiseAndSuggestionCounts(text: string)
    ensures |Praises(text)| == 1 + Passes(text)
    ensures |Suggestions(text)| == 4 - Passes(text)
  {
  }

  /** The praise and suggestion texts differ from one another and from the
      length praise. */
  lemma TextsDistinct(length: nat)
    ensures var lp := "● " + LengthPraise(length);
      && lp != MotivationPraise && lp != PolicyPraise && lp != FuturePraise && lp != StructurePraise
      && MotivationPraise != PolicyPraise && MotivationPraise != FuturePraise
      && MotivationPraise != StructurePraise && PolicyPraise != FuturePraise
      && PolicyPraise != StructurePraise && FuturePraise != StructurePraise
      && MotivationSuggestion != PolicySuggestion && MotivationSuggestion != FutureSuggestion
      && MotivationSuggestion != StructureSuggestion && PolicySuggestion != FutureSuggestion
      && PolicySuggestion != StructureSuggestion && FutureSuggestion != StructureSuggestion
  {
    var lp := "● " + LengthPraise(length);
    assert lp[0] == '●';
    assert MotivationPraise[0] == '动' && PolicyPraise[0] == '与';
    assert FuturePraise[0] == '展' && StructurePraise[0] == '段';
    assert MotivationSuggestion[0] == '动' && PolicySuggestion[0] == '政';
    assert FutureSuggestion[0] == '未' && StructureSuggestion[0] == '段';
  }

  /** For any findings, a check's praise is listed exactly when the check
      passes. */
  lemma PraisesForIff(length: nat, motivation: bool, policy: bool, future: bool, paraCount: nat)
    ensures var praises := PraisesFor(length, motivation, policy, future, paraCount);
      && (MotivationPraise in praises <==> motivation)
      && (PolicyPraise in praises <==> policy)
      && (FuturePraise in praises <==> future)
      && (StructurePraise in praises <==> paraCount >= 8)
  {
    TextsDistinct(length);
  }

  /** For any findings, a check's suggestion is listed exactly when the check
      fails. */
  lemma SuggestionsForIff(motivation: bool, policy: bool, future: bool, paraCount: nat)
    ensures var suggestions := SuggestionsFor(motivation, policy, future, paraCount);
      && (MotivationSuggestion in suggestions <==> !motivation)
      && (PolicySuggestion in suggestions <==> !policy)
      && (FutureSuggestion in suggestions <==> !future)
      && (StructureSuggestion in suggestions <==> paraCount < 8)
  {
    TextsDistinct(0);
  }

  /** A check's praise is given exactly when it passes. */
  lemma PraiseIffPass(text: string)
    ensures MotivationPraise in Praises(text) <==> HasMotivation(text)
    ensures PolicyPraise in Praises(text) <==> HasPolicy(text)
    ensures FuturePraise in Praises(text) <==> HasFuture(text)
    ensures StructurePraise in Praises(text) <==> HasStructure(text)
  {
    PraisesForIff(|text|, HasMotivation(text), HasPolicy(text), HasFuture(text), ParagraphCount(text));
  }

  /** A check's suggestion is given exactly when it fails. */
  lemma SuggestionIffFail(text: string)
    ensures MotivationSuggestion in Suggestions(text) <==> !HasMotivation(text)
    ensures PolicySuggestion in Suggestions(text) <==> !HasPolicy(text)
    ensures FutureSuggestion in Suggestions(text) <==> !HasFuture(text)
    ensures StructureSuggestion in Suggestions(text) <==> !HasStructure(text)
  {
    SuggestionsForIff(HasMotivation(text), HasPolicy(text), HasFuture(text), ParagraphCount(text));
  }

  /** The verdict follows the number of passed checks: the top tier for all
      four, the middle tier for three, the bottom tier otherwise. */
  lemma VerdictTiers(text: string)
    ensures Passes(text) == 4 ==> Verdict(|Praises(text)| - 1) == TopVerdict
    ensures Passes(text) == 3 ==> Verdict(|Praises(text)| - 1) == MiddleVerdict
    ensures Passes(text) <= 2 ==> Verdict(|Praises(text)| - 1) == BottomVerdict
  {
    PraiseAndSuggestionCounts(text);
  }

  /** The closing part is the excellence note exactly when there is no
      suggestion. */
  lemma ClosingExcellentIff(suggestions: seq<string>)
    ensures Closing(suggestions) == ExcellentNote <==> suggestions == []
  {
    if suggestions != [] {
      var c := Closing(suggestions);
      assert c[8] == SuggestionHeading[8] == '<';
      assert ExcellentNote[8] == '整';
    }
  }

  /** The excellence note closes the report exactly when every check passes,
      which is exactly when there is no suggestion. */
  lemma ExcellentIffAllPass(text: string)
    ensures Closing(Suggestions(text)) == ExcellentNote <==> Suggestions(text) == []
    ensures Suggestions(text) == [] <==> Passes(text) == 4
  {
    PraiseAndSuggestionCounts(text);
    ClosingExcellentIff(Suggestions(text));
  }

  /** Whatever precedes it, a closing part followed by the deep-audit note
      ends in the excellence note exactly when there is no suggestion: the
      suggestions block ends with the worked example's closing quote, the
      note with a full stop. */
  lemma ClosingEnding(prefix: string, suggestions: seq<string>)
    ensures EndsWith(prefix + Closing(suggestions) + DeepAuditNote, ExcellentNote + DeepAuditNote)
        <==> suggestions == []
  {
    var c := Closing(suggestions);
    var r := prefix + c + DeepAuditNote;
    var e := ExcellentNote + DeepAuditNote;
    if suggestions == [] {
      AppendAssoc(prefix, ExcellentNote, DeepAuditNote);
      assert r[|r| - |e|..] == e;
    } else {
      assert c[|c| - 1] == ExampleBlock[|ExampleBlock| - 1] == '"';
      var j := |r| - |DeepAuditNote| - 1;
      assert r[j] == c[|c| - 1];
      assert e[|ExcellentNote| - 1] == '。';
      assert |e| <= |r| ==> r[|r| - |e|..][|ExcellentNote| - 1] == r[j];
    }
  }

  /** For a non-graduate document, the report ends with the excellence note
      and the deep-audit note exactly when there is no suggestion. */
  lemma ReportForEnding(docType: DocumentType, length: nat, motivation: bool, policy: bool,
                        future: bool, paraCount: nat)
    requires docType != Graduate
    ensures EndsWith(ReportFor(docType, length, motivation, policy, future, paraCount),
                     ExcellentNote + DeepAuditNote)
        <==> SuggestionsFor(motivation, policy, future, paraCount) == []
  {
    var praises := PraisesFor(length, motivation, policy, future, paraCount);
    var suggestions := SuggestionsFor(motivation, policy, future, paraCount);
    var prefix := Header(docType) + Lines(StepsFor(length, motivation, policy)) + Lines(praises)
                  + VerdictHeading + Verdict(|praises| - 1);
    assert ReportFor(docType, length, motivation, policy, future, paraCount)
        == prefix + Closing(suggestions) + DeepAuditNote;
    ClosingEnding(prefix, suggestions);
  }

  /** The checklist decides how the report of a non-graduate text ends: with
      the excellence note (then the deep-audit note) exactly when all four
      checks pass. */
  lemma ReportEndsExcellentIffAllPass(text: string)
    requires DetectDocumentType(text) != Graduate
    ensures EndsWith(AuditReport(text), ExcellentNote + DeepAuditNote) <==> Passes(text) == 4
  {
    ReportForEnding(DetectDocumentType(text), |text|, HasMotivation(text), HasPolicy(text),
                    HasFuture(text), ParagraphCount(text));
    ExcellentIffAllPass(text);
  }

  /** A text with no line break has at most one paragraph, so a non-graduate
      report on it always suggests finer paragraphs. */
  lemma SingleLineLacksStructure(text: string)
    requires !Contains(text, "\n")
    ensures ParagraphCount(text) <= 1
    ensures StructureSuggestion in Suggestions(text)
  {
    assert SplitOn(text, "\n") == [text];
    SuggestionIffFail(text);
  }
}
