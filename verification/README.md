# Essay-consulting chat widget: matching and evaluation core

This project models the logic inside `script.js`, the single script of a
browser chat widget for essay consulting, and proves properties of it.
The widget answers a typed question with an entry from a JSON knowledge base
and evaluates an uploaded essay against a fixed checklist. The model covers
the following parts:

- **Language detection** (`detectLanguage`). The script characters in a
  query are counted per language. The tag with the largest count wins, and on
  a tie the later tag wins, as the `reduce` in the code does.
- **Similarity** (`calculateSimilarity`). This counts the positions where
  the two strings agree, adds a bonus of 0.3 per character of the shorter
  string when one string contains the other, and divides by the longer
  length. Two empty strings give NaN.
- **Matching** (`findBestMatch`). Every entry's keywords are scored: 50 for
  an exact match, 30 when the query contains the keyword, 15 when the keyword
  contains a query of at least two characters, plus similarity points. The
  total is then adjusted for priority, for protected priority (2800 and up)
  and for a matching language suffix. Entries with a positive keyword total are ranked by a stable
  descending sort, and the first entry is the answer.
- **The memo around matching** (`semanticCache` with `cacheHitCount`). This
  is the class `Engine.MatchEngine`. Its invariant says every cached entry is
  what a fresh ranking would answer. On the 500th hit the cache is emptied
  and the counter is reset.
- **Document type** (`detectDocumentType`) and **the essay audit**
  (`evaluateDocument`). Together they build the full HTML report, with every
  literal of the code.
- **The glue around them**:
  - the reply chosen when nothing matched;
  - the cutting of a reply into chat bubbles at `[BREAK]`;
  - the extension and size checks on an upload;
  - the extractor key;
  - the minimum length of extracted text.

Strings are sequences of `char`, and case mapping is ASCII only. A regular
expression `/a|b|c/i` is modelled as "some alternative occurs in the
lower-cased text". The loading of `knowledge.json` is the constructor's
argument.

Two behaviours of the code that the model keeps as written:

- On a tie between language counts, the later tag in the order cn, jp, kr,
  en wins. The `reduce` at script.js:28 keeps its accumulator only when the
  accumulator's count is strictly larger. `Language.Keep` and
  `Language.DetectLanguage` state this.
- On the cache hit that brings the counter to 500, the cache is emptied
  (script.js:57-59) before the `get` at script.js:61. So that call answers
  nothing, and the caller falls back to the welcome text.
  `Engine.MatchEngine.FindBestMatch` states this.

## Model

| member | source | states |
|---|---|---|
| Text.Lower | script.js:33-34 | `toLowerCase` keeps the length and maps each character to its lower-case form (A–Z to a–z, all else unchanged) |
| Text.Upper | script.js:102 | `toUpperCase` keeps the length and maps each character to its upper-case form |
| Text.LowerIdempotent | script.js:71-73 | lowering an already lowered string changes nothing, so `text` (lowered once) is compared with lowered keywords consistently |
| Text.LowerOfUpper | script.js:241 | lowering an upper-cased string gives the lowered original, the basis of every case-insensitive test |
| Text.TrimStart | script.js:51 | the result is the suffix left after removing every leading whitespace character, and it starts with non-whitespace when not empty |
| Text.TrimEnd | script.js:51 | the result is the prefix left after removing every trailing whitespace character, and it ends with non-whitespace when not empty |
| Text.Trim | script.js:51 | `trim()` is no longer than its input, is empty exactly when the input is blank, and starts and ends with non-whitespace otherwise |
| Text.TrimCharacterised | script.js:214 | `seg.trim()` is falsy exactly when the segment is blank |
| Text.TrimIsStretch | script.js:51 | `trim()` is the stretch of its input that starts after the leading whitespace, with only whitespace before and after it |
| Text.LowerKeepsContent | script.js:51 | lowering a string does not change whether it is blank |
| Text.TrimOfLower | script.js:51 | the lowered and trimmed query holds no ASCII capital and is empty exactly when the input is blank |
| Text.CountWithContent | script.js:135 | the count of non-blank strings is at most their number and is zero exactly when every one is blank |
| Text.ConcatContent | script.js:135 | a concatenation is blank exactly when both halves are |
| Text.JoinContent | script.js:135 | pieces joined by a blank separator are blank exactly when every piece is |
| Text.IndexOf | script.js:43 | the first index where the pattern occurs, or none exactly when it occurs nowhere |
| Text.Contains | script.js:43 | `includes` is true exactly when the pattern occurs at some index |
| Text.LowerKeepsOccurrence | script.js:125-127 | an occurrence of a marker in the text is still an occurrence after lowering both |
| Text.TrimKeepsContainment | script.js:214-215 | whatever occurs in a trimmed piece occurs in the piece |
| Text.SplitOn | script.js:212 | `split(sep)` yields at least one piece |
| Text.SplitJoin | script.js:212 | joining the pieces of `split(sep)` with `sep` gives back the original string |
| Text.SplitPiecesExcludeSeparator | script.js:212 | no piece of `split(sep)` contains `sep` |
| Text.BeforeFirstOccurrence | script.js:212 | the text before the first occurrence of the separator does not contain it |
| Text.LastSegment | script.js:101 | `split(sep).pop()` is a suffix without `sep`, preceded by `sep` when it is not the whole string |
| Text.LastSegmentLower | script.js:258 | for a separator that is not a letter, taking the last segment and lowering commute |
| Text.LastSegmentAfterSeparator | script.js:101 | the last segment of `p + sep + q` is `q` when `q` has no `sep` |
| Text.DecimalRoundTrip | script.js:173 | the number `i+1` is written with decimal digits only, and reading them back gives the number |
| Language.Count | script.js:19-22 | a class's match count is at most the length and is zero exactly when no character is in the class |
| Language.InClass | script.js:13-16 | the four classes: CJK ideographs U+4E00–U+9FA5, kana U+3040–U+30FF, Hangul syllables U+AC00–U+D7AF, ASCII letters |
| Language.ClassesDisjoint | script.js:13-16 | no character belongs to two classes |
| Language.Keep | script.js:28 | one step of the `reduce` returns one of its two tags, the one with the larger count, and the later tag on a tie |
| Language.DetectLanguage | script.js:12-30 | `unknown` exactly when no character is a script character; otherwise the tag's count is at least every count, and every later tag has a strictly smaller count |
| SimilarityScorer.Overlap | script.js:36-41 | the agreeing positions among the first `n` are at most `n`, and all `n` agree exactly when the prefixes are equal |
| SimilarityScorer.RawSimilarity | script.js:36-45 | the raw score is the number of agreeing positions within the shorter length, plus 0.3 per character of the shorter string when either lowered string contains the other |
| SimilarityScorer.Similarity | script.js:32-48 | the similarity is NaN exactly when both strings are empty |
| SimilarityScorer.CalculateSimilarity | script.js:32-48 | the counting loop computes the similarity |
| SimilarityScorer.SimilaritySymmetric | script.js:32-48 | the similarity of `a` and `b` equals that of `b` and `a` |
| SimilarityScorer.RawSimilarityBounds | script.js:36-45 | the raw score lies between 0 and 1.3 times the shorter length, and is at most the shorter length without containment |
| SimilarityScorer.ContainsLength | script.js:43 | a contained string is no longer than its container, and equally long only when equal |
| SimilarityScorer.RawQuotientBounds | script.js:47 | the quotient by the longer length lies between 0 and 1.3 |
| SimilarityScorer.SimilarityBounds | script.js:32-48 | unless both strings are empty, the similarity is a number between 0 and 1.3 |
| SimilarityScorer.SimilarityOfEqual | script.js:32-48 | a non-empty string has similarity exactly 1.3 with itself |
| SimilarityScorer.SimilarityMaximalOnlyForEqual | script.js:32-48 | similarity 1.3 happens only for strings equal up to case |
| SimilarityScorer.SimilarityBelowOneWithoutContainment | script.js:39-47 | without containment either way, the similarity is a number below 1 |
| Scoring.TierPoints | script.js:73-82 | only the first tier that applies pays: 50 exactly for an equal keyword, 30 exactly when the query contains a different keyword, 15 exactly when it does not but the keyword contains a query of length 2 or more, and nothing otherwise |
| Scoring.SimilarityPoints | script.js:84-89 | similarity points are paid exactly above 0.5, are then at least 10, and are the whole part of twenty times the similarity |
| Scoring.SimilarityPointsRange | script.js:84-89 | the similarity bonus is 0 or between 10 and 26, at most 25 below 1.3 and at most 19 below 1 |
| Scoring.KeywordScore | script.js:70-90 | one keyword adds between 0 and 76 points |
| Scoring.SimilarityPointsBounded | script.js:84-89 | the bonus for any pair of strings is between 0 and 26 |
| Scoring.ExactKeywordScore | script.js:73-89 | a keyword equal to the non-empty query adds exactly 76 |
| Scoring.InexactKeywordBound | script.js:76-89 | a keyword not equal to the lowered query adds at most 55 |
| Scoring.ExactMatchOutranksOthers | script.js:73-89 | an exact keyword scores strictly more than any inexact one |
| Scoring.EmptyQueryKeywordScore | script.js:70-90 | an empty query earns nothing from a non-empty keyword |
| Scoring.KeywordTotal | script.js:67-90 | an entry's keyword total is never negative |
| Scoring.EmptyQueryTotal | script.js:67-90 | an empty query earns nothing from non-empty keywords, so no entry is a candidate |
| Scoring.LanguageMatches | script.js:101-106 | the language test: the id's last `_` segment equals the upper-cased tag, or one of the four explicit tag and suffix pairs holds |
| Scoring.UpperTags | script.js:102-106 | the upper-cased tags are CN, JP, KR, EN and UNKNOWN |
| Scoring.LanguageMatchesUpperTag | script.js:101-106 | the language test holds exactly when the id's last `_` segment is the upper-cased tag (the four extra alternatives add nothing) |
| Scoring.TaggedIdMatches | script.js:101-106 | an id ending in `_` and a language's upper tag matches that language and no other |
| Scoring.AdjustedScore | script.js:92-109 | the adjusted score is positive exactly when the keyword total plus priority/100 is, negative exactly when that base is, and for a non-negative base lies between the base and 1.38 times it |
| Scoring.AdjustedScoreMonotone | script.js:92-109 | the adjustments keep a strictly higher keyword total strictly higher |
| Scoring.ProtectedPriorityOutranks | script.js:92-99 | at equal id and total, a protected priority gives a strictly higher score than an unprotected one |
| Scoring.LanguageBoost | script.js:101-109 | at equal priority, a matching language suffix multiplies the score by exactly 1.15 |
| Scoring.IsCandidate | script.js:92 | an entry is a candidate when its keyword total is positive |
| Scoring.EntryScore | script.js:92-109 | an entry's final score is the adjustment of its keyword total for its priority, protection and language |
| Scoring.Matches | script.js:64-113 | the matches are candidate entries of the knowledge base with their adjusted scores, and there are none exactly when no entry is a candidate |
| Scoring.ScoreKeywords | script.js:67-90 | the keyword loop computes the keyword total |
| Scoring.AdjustScore | script.js:92-109 | the adjustment steps compute the adjusted score |
| Scoring.ScoreEntry | script.js:67-112 | one turn of the outer loop pushes the entry with its adjusted score exactly when it is a candidate |
| Scoring.ScoreKnowledgeBase | script.js:64-113 | the `forEach` over the knowledge base computes the matches |
| Ranking.FirstMaxIndex | script.js:117-119 | the chosen index has a maximal score, and every earlier match scores strictly less |
| Ranking.FirstMaxUnique | script.js:117-119 | there is only one such first maximum |
| Ranking.BestMatch | script.js:115-121 | there is no answer exactly when no entry is a candidate; an answer is a candidate entry of the knowledge base |
| Ranking.CandidateScores | script.js:66-113 | each entry gets its adjusted score when it is a candidate and nothing otherwise |
| Ranking.BestIndexUnique | script.js:117-119 | the first best-scoring candidate is unique |
| Ranking.MatchesOf | script.js:111-115 | the collected matches are empty exactly when no entry has a score |
| Ranking.MatchesAreScoredEntries | script.js:64-113 | the matches are the scored candidates in knowledge-base order |
| Ranking.FirstMaxIsBestIndex | script.js:117-119 | the first maximum among the matches is the entry that is the first best candidate |
| Ranking.BestMatchIsBestEntry | script.js:115-121 | an answer is the first knowledge-base entry with the highest adjusted score among the candidates |
| Ranking.InsertDescending | script.js:117 | inserting at a point where the earlier scores are not lower and the later ones are lower keeps the order descending |
| Ranking.InsertStable | script.js:117 | such an insertion adds exactly the item and places it after every earlier item of the same score |
| Ranking.InsertionPoint | script.js:117 | the point found has no lower score before it and a lower score right after it |
| Ranking.SortByScore | script.js:117 | the sort is descending and a permutation, and it keeps the original order among equal scores |
| Ranking.SortedHeadScore | script.js:117-119 | a descending permutation starts with the highest score |
| Ranking.StableSortHead | script.js:117-119 | a stable descending sort starts with the first maximum, so `matches[0]` is well defined |
| Engine.RankKnowledgeBase | script.js:64-121 | scoring, sorting and taking the head of the matches yields the ranking's answer, and nothing when there is no candidate |
| Engine.Normalize | script.js:51 | the normalised query is no longer than the input, holds no ASCII capital, and is empty exactly when the input is blank |
| Engine.CacheKey | script.js:54 | the last `_` segment of a cache key is the language tag |
| Engine.TagInjective | script.js:54 | different languages have different tags |
| Engine.CacheKeyInjective | script.js:54 | different (query, language) pairs never share a cache key |
| Engine.CoherentInsert | script.js:119-120 | caching the ranking's answer under its own key keeps every cached entry equal to a fresh ranking's answer |
| Engine.MatchEngine.constructor | script.js:2-6 | a loaded engine has the given knowledge base, an empty cache and a zero counter, and the cache invariant holds |
| Engine.MatchEngine.FindBestMatch | script.js:50-122 | the cache invariant is kept. On a hit the counter goes up, and the threshold hit empties the cache, resets the counter and answers nothing; other hits answer the cached entry. On a miss the answer is the ranking's, and it is cached when found. Any answer equals the ranking's |
| Engine.MatchEngine.ClearCache | script.js:306-307 | the clear button empties the cache, resets the counter and keeps the invariant |
| Documents.MatchesAny | script.js:125-127 | a case-insensitive alternation matches exactly when some alternative occurs in the lowered text |
| Documents.MatchesAnyIgnoresCase | script.js:125-126 | the pattern test gives the same answer on the upper-cased text |
| Documents.DetectDocumentType | script.js:124-130 | the type is graduate exactly when a graduate marker occurs; the undergraduate test changes nothing |
| Documents.GraduateMarkerDecides | script.js:125-127 | an occurrence of a graduate marker, in any ASCII case, makes the text graduate |
| Documents.VerbatimMarkerDecides | script.js:125-127 | a verbatim occurrence of a graduate marker makes the text graduate |
| Documents.DocumentTypeIgnoresCase | script.js:124-130 | the document type does not depend on the case of the text |
| Evaluator.HasMotivation | script.js:137 | the motivation check: one of きっかけ, 興味, 好き, 感動 occurs, ignoring ASCII case |
| Evaluator.HasPolicy | script.js:138 | the policy check: one of 政策, 環境政策, 文化政策, 著作権 occurs, ignoring ASCII case |
| Evaluator.HasFuture | script.js:139 | the future check: one of 卒業後, 将来, 貢献 occurs, ignoring ASCII case |
| Evaluator.ParagraphCount | script.js:135 | the paragraph count is zero exactly when the whole text is blank |
| Evaluator.StepsFor | script.js:143-148 | the four reasoning steps: the fixed first and last, the length bucket (under 400, under 800, longer) and the motivation and policy findings |
| Evaluator.PraisesFor | script.js:150-158 | the length praise, then the praise of each passing check in the order motivation, policy, future, structure |
| Evaluator.SuggestionsFor | script.js:152-159 | the suggestion of each failing check, in the same order |
| Evaluator.Lines | script.js:167-168 | every item followed by `<br>`, in order |
| Evaluator.Numbered | script.js:173 | every item numbered from 1 as `n. item<br>`, in order |
| Evaluator.Verdict | script.js:161-164 | the verdict for a number of praises besides the length praise: top from 4, middle at 3, bottom below |
| Evaluator.Closing | script.js:171-177 | the part after the verdict: the numbered suggestions and the worked example, or the excellence note when there is no suggestion |
| Evaluator.ReportFor | script.js:141-186 | the report for given findings: header, steps, praises, verdict, closing part and deep-audit note for a non-graduate document; header, steps and referral for a graduate one |
| Evaluator.AuditReport | script.js:132-186 | the report for a text is the report for its document type, length and check findings |
| Evaluator.AppendLines | script.js:167-168 | the `forEach` appending `item<br>` produces the output followed by every line in order |
| Evaluator.AppendNumbered | script.js:173 | the numbered `forEach` produces the output followed by every suggestion numbered from 1 |
| Evaluator.AppendClosing | script.js:171-177 | the closing part is the numbered suggestions and the worked example, or the excellence note |
| Evaluator.CollectSteps | script.js:143-148 | the four pushes produce the four reasoning steps for the length bucket and the motivation and policy findings |
| Evaluator.CollectFindings | script.js:150-159 | the pushes produce the length praise plus a praise per passing check, and a suggestion per failing check |
| Evaluator.AppendReport | script.js:166-179 | the non-graduate output is the header, the steps, the praises, the verdict, the closing part and the deep-audit note, in that order |
| Evaluator.ComposeReport | script.js:141-186 | after the checks, the pushes and appends build the non-graduate or the graduate report for the findings |
| Evaluator.EvaluateDocument | script.js:132-187 | the evaluation has no issues and exactly one suggestion, the full audit report of the text |
| Evaluator.PraiseAndSuggestionCounts | script.js:150-161 | there are one more praise than passing checks and four minus as many suggestions |
| Evaluator.TextsDistinct | script.js:151-159 | all praise texts are distinct, and so are all suggestion texts |
| Evaluator.PraisesForIff | script.js:151-159 | for any findings, each check's praise is listed exactly when the check passes |
| Evaluator.SuggestionsForIff | script.js:152-159 | for any findings, each check's suggestion is listed exactly when the check fails |
| Evaluator.PraiseIffPass | script.js:152-159 | each check's praise appears exactly when the check passes |
| Evaluator.SuggestionIffFail | script.js:152-159 | each check's suggestion appears exactly when the check fails |
| Evaluator.VerdictTiers | script.js:161-164 | four passes give the top verdict, three the middle one, and fewer the bottom one |
| Evaluator.ClosingExcellentIff | script.js:171-177 | the closing part is the excellence note exactly when there are no suggestions |
| Evaluator.ExcellentIffAllPass | script.js:171-177 | the report closes with the excellence note exactly when there are no suggestions, which is exactly when all four checks pass |
| Evaluator.ClosingEnding | script.js:171-179 | whatever precedes it, a closing part followed by the deep-audit note ends with the excellence note exactly when there is no suggestion |
| Evaluator.ReportForEnding | script.js:150-179 | for a non-graduate document, the report ends with the excellence and deep-audit notes exactly when there is no suggestion |
| Evaluator.ReportEndsExcellentIffAllPass | script.js:132-179 | for a non-graduate text, the report ends with the excellence and deep-audit notes exactly when all four checks pass |
| Evaluator.SingleLineLacksStructure | script.js:135-159 | a text without a line break has at most one paragraph, and the finer-paragraphs suggestion is among its suggestions (which only a non-graduate report lists) |
| ChatGlue.FindIndexById | script.js:210 | `find` stops at the first entry with the id, and finds nothing exactly when no entry has it |
| ChatGlue.ResponseText | script.js:209-210 | without a match the reply text is never empty |
| ChatGlue.WelcomeFallback | script.js:210 | without a match, the first welcome entry answers when its response is not empty |
| ChatGlue.SystemErrorFallback | script.js:210 | without a match and without a usable welcome entry, the reply is the system error text |
| ChatGlue.Bubbles | script.js:212-218 | there are no more bubbles than pieces |
| ChatGlue.BubblesAreTrimmedPieces | script.js:212-215 | each bubble is the trim of a non-blank piece, so it is non-empty with no whitespace at either end |
| ChatGlue.BubbleCount | script.js:212-218 | there is one bubble per non-blank piece |
| ChatGlue.LastPieceShown | script.js:213-216 | a non-blank last piece adds its trim after the bubbles of the pieces before it |
| ChatGlue.ContentPiecesAreShown | script.js:212-218 | every non-blank piece is shown trimmed, at the position after the bubbles of the non-blank pieces before it |
| ChatGlue.ShowReply | script.js:212-218 | the loop over the pieces shows exactly the trimmed non-blank pieces, in order |
| ChatGlue.BubblesHideMarker | script.js:212-215 | no bubble shows the `[BREAK]` marker |
| ChatGlue.ReplyWithoutMarker | script.js:212-215 | a reply without the marker is one trimmed bubble, or none when it is blank |
| ChatGlue.HasSupportedExtension | script.js:241-242 | the name ends, in any case, with `.txt`, `.pdf`, `.docx` or `.doc` |
| ChatGlue.CheckUpload | script.js:241-252 | a file is accepted exactly when its name has a supported extension and it is at most 10 MB; a too-large file has a supported extension |
| ChatGlue.ExtractorKey | script.js:258 | the key is the lowered tail of the name after its last `.` (the whole name when it has none), and holds no `.` |
| ChatGlue.ExtractorKeyOfSuffix | script.js:258 | a name ending in `.` and a dot-free extension has that extension as its lowered extractor key |
| ChatGlue.SuffixIsDotKey | script.js:241-276 | each supported suffix is a dot followed by the key of one extraction branch, and that key has no dot |
| ChatGlue.AcceptedUploadHasExtractor | script.js:241-276 | every accepted file reaches one of the extraction branches: its key is txt, pdf, docx or doc |
| ChatGlue.CheckUploadIgnoresCase | script.js:241-242 | the extension test does not depend on the case of the name |
| ChatGlue.ExtractionUsable | script.js:278 | extracted text is used unless it is empty or its trim is shorter than 50 characters |
| ChatGlue.UsableIffLongEnough | script.js:278 | extracted text is used exactly when its trimmed length is at least 50, so the emptiness test adds nothing |

## Left out

- The DOM, the chat bubbles' HTML rendering, `appendMessage` and the `isProcessing` busy flag are left out. The model returns the texts that would be shown.
- The `fetch` of `knowledge.json` is left out. The constructor takes the loaded entries as its argument.
- PDF and Word extraction (pdf.js, mammoth), `file.text()` and their errors are left out. They are foreign code, so the extracted text is an input.
- The 600 ms pause between bubbles and the asynchronous flow of the handlers are left out.
- The preview message built from `lengthDesc` after extraction (script.js:284-290) is left out. It is display text that affects no later decision.
- `matchDetails` is left out. It only collects labels that are never read.
- Arithmetic is exact. Similarities and scores are real numbers, not IEEE-754 doubles. The rounding of `minLen * 0.3` (script.js:44) and of the division at script.js:47 is not modelled. In doubles it can leave a similarity just below a multiple of 0.05, so `Math.floor(similarity * 20)` (script.js:86) pays one point less than in the model. For example, a 9-character query that is a prefix of an 18-character keyword has a similarity just below 0.65 in doubles and earns 12 similarity points, where the model gives 13. The rounding of `/ 100`, `* 1.2` and `* 1.15` (script.js:93-107) is not modelled either.
- Scoring.ExactKeywordScore: holds in exact arithmetic only. In doubles, a 9-character query equal to its keyword has similarity 1.2999999999999998, so the keyword earns 50 + 25 = 75 points rather than 76.
- SimilarityScorer.SimilarityOfEqual: holds in exact arithmetic only. In doubles, a string compared with itself gets 1.2999999999999998 rather than 1.3 for some lengths, such as 9, 13, 18, 26 and 31.
- Case mapping covers ASCII only, and lengths count `char`s, not UTF-16 code units.
- A regular expression alternation is modelled by substring search of the lowered alternatives. This agrees with `/…/i` only for ASCII case.
- Ranking.SortByScore: `Array.prototype.sort` sorts in place with an engine-chosen algorithm. The model is an insertion sort over a sequence, specified by the properties every stable descending sort has.
- ChatGlue.CheckUpload: the file size is a natural number. Sizes are never negative or fractional.
