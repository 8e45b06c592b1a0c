/** The pure pieces of the chat glue: the reply chosen when nothing matched,
    the cutting of a reply into chat bubbles at `[BREAK]`, and the checks an
    uploaded file passes before and after its text is extracted. */
module ChatGlue {
  import opened Optional
  import opened Text
  import opened Scoring

  const WelcomeId: string := "WELCOME_BUNSHO"
  const SystemError: string := "系统错误，请刷新页面"
  const BreakMarker: string := "[BREAK]"

  /** The index `knowledgeBase.find(i => i.id === id)` stops at: the first
      entry with that id, if any. */
  function FindIndexById(kb: seq<Entry>, id: string): (r: Option<nat>)
    ensures r.Some? ==> r.value < |kb| && kb[r.value].id == id
    ensures r.Some? ==> forall j :: 0 <= j < r.value ==> kb[j].id != id
    ensures r.None? <==> forall j :: 0 <= j < |kb| ==> kb[j].id != id
  {
    if kb == [] then None
    else if kb[0].id == id then Some(0)
    else
      match FindIndexById(kb[1..], id)
      case None => None
      case Some(k) => Some(k + 1)
  }

  /** `responseText`: the matched entry's response; without a match, the
      welcome entry's response when there is one and it is not empty, and the
      system error text otherwise. Without a match the text is never empty. */
  function ResponseText(matched: Option<Entry>, kb: seq<Entry>): (r: string)
    ensures matched.None? ==> r != []
  {
    if matched.Some? then matched.value.response
    else
      match FindIndexById(kb, WelcomeId)
      case Some(i) => if kb[i].response != [] then kb[i].response else SystemError
      case None => SystemError
  }

  /** Without a match, the first welcome entry answers when its response is
      not empty. */
  lemma WelcomeFallback(kb: seq<Entry>, i: nat)
    requires i < |kb| && kb[i].id == WelcomeId && kb[i].response != []
    requires forall j :: 0 <= j < i ==> kb[j].id != WelcomeId
    ensures ResponseText(None, kb) == kb[i].response
  {
    assert FindIndexById(kb, WelcomeId) == Some(i);
  }

  /** Without a match and without a usable welcome entry, the reply is the
      system error text. */
  lemma SystemErrorFallback(kb: seq<Entry>)
    requires forall j :: 0 <= j < |kb| && kb[j].id == WelcomeId ==> kb[j].response == []
    ensures ResponseText(None, kb) == SystemError
  {
  }

  /** The bubbles shown for the pieces of a reply: every piece that is not
      blank, trimmed, in order. */
  function Bubbles(pieces: seq<string>): (r: seq<string>)
    ensures |r| <= |pieces|
  {
    if pieces == [] then []
    else
      var n := |pieces| - 1;
      Bubbles(pieces[..n]) + (if HasContent(pieces[n]) then [Trim(pieces[n])] else [])
  }

  /** Each bubble is the trim of some piece that is not blank, so it is not
      empty and neither starts nor ends with whitespace. */
  lemma {:induction false} BubblesAreTrimmedPieces(pieces: seq<string>)
    ensures forall m :: 0 <= m < |Bubbles(pieces)| ==>
      exists k :: 0 <= k < |pieces| && HasContent(pieces[k]) && Bubbles(pieces)[m] == Trim(pieces[k])
    ensures forall m :: 0 <= m < |Bubbles(pieces)| ==>
      (Bubbles(pieces)[m] != []
       && !IsJsWhitespace(Bubbles(pieces)[m][0])
       && !IsJsWhitespace(Bubbles(pieces)[m][|Bubbles(pieces)[m]| - 1]))
  {
    if pieces != [] {
      var n := |pieces| - 1;
      var init := pieces[..n];
      BubblesAreTrimmedPieces(init);
      var rest := Bubbles(init);
      var r := Bubbles(pieces);
      assert r == rest + (if HasContent(pieces[n]) then [Trim(pieces[n])] else []);
      forall m | 0 <= m < |r|
        ensures exists k :: 0 <= k < |pieces| && HasContent(pieces[k]) && r[m] == Trim(pieces[k])
      {
        if m < |rest| {
          assert 0 <= m < |Bubbles(init)| && Bubbles(init)[m] == rest[m];
          var k :| 0 <= k < |init| && HasContent(init[k]) && rest[m] == Trim(init[k]);
          assert init[k] == pieces[k];
          assert r[m] == Trim(pieces[k]);
        } else {
          assert r[m] == Trim(pieces[n]);
        }
      }
    } else {
      assert Bubbles(pieces) == [];
    }
  }

  /** There is one bubble per piece that is not blank. */
  lemma {:induction false} BubbleCount(pieces: seq<string>)
    ensures |Bubbles(pieces)| == CountWithContent(pieces)
  {
    if pieces != [] {
      BubbleCount(pieces[..|pieces| - 1]);
    }
  }

  /** A non-blank last piece adds its trim after the bubbles of the pieces
      before it, one per non-blank piece. */
  lemma LastPieceShown(pieces: seq<string>)
    requires pieces != [] && HasContent(pieces[|pieces| - 1])
    ensures var init := pieces[..|pieces| - 1];
      Bubbles(pieces) == Bubbles(init) + [Trim(pieces[|pieces| - 1])]
      && |Bubbles(init)| == CountWithContent(init)
  {
    BubbleCount(pieces[..|pieces| - 1]);
  }

  /** Conversely, every piece that is not blank is shown, trimmed, and in
      its place: after one bubble per non-blank piece before it. */
  lemma {:induction false} ContentPiecesAreShown(pieces: seq<string>)
    ensures forall k :: 0 <= k < |pieces| && HasContent(pieces[k]) ==>
      CountWithContent(pieces[..k]) < |Bubbles(pieces)|
      && Bubbles(pieces)[CountWithContent(pieces[..k])] == Trim(pieces[k])
  {
    if pieces != [] {
      var n := |pieces| - 1;
      var init := pieces[..n];
      ContentPiecesAreShown(init);
      var rest := Bubbles(init);
      var r := Bubbles(pieces);
      assert rest == r[..|rest|];
      forall k | 0 <= k < |pieces| && HasContent(pieces[k])
        ensures CountWithContent(pieces[..k]) < |r| && r[CountWithContent(pieces[..k])] == Trim(pieces[k])
      {
        if k < n {
          assert init[..k] == pieces[..k];
          assert init[k] == pieces[k];
        } else {
          LastPieceShown(pieces);
          assert pieces[..k] == init;
        }
      }
    }
  }

  /** One more piece adds its trim when that is not empty. */
  lemma BubblesStep(pieces: seq<string>, i: nat)
    requires i < |pieces|
    ensures Bubbles(pieces[..i + 1])
         == Bubbles(pieces[..i]) + (if Trim(pieces[i]) != [] then [Trim(pieces[i])] else [])
  {
    assert pieces[..i + 1][..i] == pieces[..i];
  }

  /** The loop over `responseText.split('[BREAK]')` that appends one bot
      message per non-blank piece. */
  method ShowReply(responseText: string) returns (messages: seq<string>)
    ensures messages == Bubbles(SplitOn(responseText, BreakMarker))
  {
    var segments := SplitOn(responseText, BreakMarker);
    messages := [];
    var i := 0;
    while i < |segments|
      invariant 0 <= i <= |segments|
      invariant messages == Bubbles(segments[..i])
    {
      var seg := segments[i];
      BubblesStep(segments, i);
      if Trim(seg) != [] {
        messages := messages + [Trim(seg)];
      }
      i := i + 1;
    }
    assert segments[..i] == segments;
  }

  /** No bubble shows the `[BREAK]` marker. */
  lemma BubblesHideMarker(responseText: string)
    ensures var shown := Bubbles(SplitOn(responseText, BreakMarker));
      forall m :: 0 <= m < |shown| ==> !Contains(shown[m], BreakMarker)
  {
    var pieces := SplitOn(responseText, BreakMarker);
    var shown := Bubbles(pieces);
    SplitPiecesExcludeSeparator(responseText, BreakMarker);
    BubblesAreTrimmedPieces(pieces);
    forall m | 0 <= m < |shown| ensures !Contains(shown[m], BreakMarker) {
      var k :| 0 <= k < |pieces| && HasContent(pieces[k]) && shown[m] == Trim(pieces[k]);
      if Contains(shown[m], BreakMarker) {
        TrimKeepsContainment(pieces[k], BreakMarker);
        assert false;
      }
    }
  }

  /** A reply with no marker is shown as one bubble, trimmed, unless it is
      blank. */
  lemma ReplyWithoutMarker(responseText: string)
    requires !Contains(responseText, BreakMarker)
    ensures Bubbles(SplitOn(responseText, BreakMarker))
         == if HasContent(responseText) then [Trim(responseText)] else []
  {
    assert SplitOn(responseText, BreakMarker) == [responseText];
    assert [responseText][..0] == [];
  }

  /** The outcome of the checks made on a chosen file before extraction. */
  datatype UploadCheck = Unsupported | TooLarge | Accepted

  /** The alternatives of `/\.(txt|pdf|docx|doc)$/i`. */
  const SupportedSuffixes: seq<string> := [".txt", ".pdf", ".docx", ".doc"]

  /** The 10 MB limit, `10 * 1024 * 1024` bytes. */
  const MaxUploadBytes: nat := 10 * 1024 * 1024

  /** The file name ends with a supported extension, in any case. */
  predicate HasSupportedExtension(name: string) {
    exists i :: 0 <= i < |SupportedSuffixes| && EndsWith(Lower(name), SupportedSuffixes[i])
  }

  /** The upload checks in the source's order: the extension first, then
      the size. A file is accepted exactly when it has a supported extension
      and is at most 10 MB. */
  function CheckUpload(name: string, size: nat): (r: UploadCheck)
    ensures r == Accepted <==> HasSupportedExtension(name) && size <= MaxUploadBytes
    ensures r == TooLarge ==> HasSupportedExtension(name)
  {
    if !HasSupportedExtension(name) then Unsupported
    else if size > MaxUploadBytes then TooLarge
    else Accepted
  }

  /** `file.name.split('.').pop().toLowerCase()`, which picks the extractor:
      the lowered tail of the name after its last `.` (the whole name when it
      has none), so the key itself holds no `.`. */
  function ExtractorKey(name: string): (r: string)
    ensures |r| <= |name| && r == Lower(name)[|name| - |r|..]
    ensures '.' !in r
    ensures |r| < |name| ==> name[|name| - |r| - 1] == '.'
  {
    LastSegmentLower(name, '.');
    Lower(LastSegment(name, '.'))
  }

  /** A name that ends with `.` and an extension without a `.` has that
      extension as its extractor key, lowered. */
  lemma ExtractorKeyOfSuffix(name: string, ext: string)
    requires '.' !in ext && EndsWith(Lower(name), ['.'] + ext)
    ensures ExtractorKey(name) == ext
  {
    var ln := Lower(name);
    var p := ln[..|ln| - |ext| - 1];
    assert ln == p + ['.'] + ext;
    LastSegmentAfterSeparator(p, '.', ext);
    LastSegmentLower(name, '.');
  }

  /** The keys the extraction branches test: `txt`, `pdf`, `docx`, `doc`. */
  const ExtractorKeys: seq<string> := ["txt", "pdf", "docx", "doc"]

  /** Each supported suffix is a `.` and the matching key, which has no `.`. */
  lemma SuffixIsDotKey(i: nat)
    requires i < |SupportedSuffixes|
    ensures |ExtractorKeys| == |SupportedSuffixes|
    ensures SupportedSuffixes[i] == ['.'] + ExtractorKeys[i] && '.' !in ExtractorKeys[i]
  {
    if i == 0 {
      assert SupportedSuffixes[0] == ['.'] + "txt";
    } else if i == 1 {
      assert SupportedSuffixes[1] == ['.'] + "pdf";
    } else if i == 2 {
      assert SupportedSuffixes[2] == ['.'] + "docx";
    } else {
      assert SupportedSuffixes[3] == ['.'] + "doc";
    }
  }

  /** Every accepted file reaches one of the extraction branches: its
      extractor key is `txt`, `pdf`, `docx` or `doc`. */
  lemma AcceptedUploadHasExtractor(name: string, size: nat)
    requires CheckUpload(name, size) == Accepted
    ensures ExtractorKey(name) in ExtractorKeys
  {
    var i :| 0 <= i < |SupportedSuffixes| && EndsWith(Lower(name), SupportedSuffixes[i]);
    var ext := ExtractorKeys[i];
    SuffixIsDotKey(i);
    ExtractorKeyOfSuffix(name, ext);
    assert ExtractorKey(name) == ext;
  }

  /** The extension test ignores case: `ESSAY.PDF` passes like `essay.pdf`. */
  lemma CheckUploadIgnoresCase(name: string, size: nat)
    ensures CheckUpload(Upper(name), size) == CheckUpload(name, size)
  {
    LowerOfUpper(name);
  }

  /** The extracted text is evaluated unless it is empty or, trimmed, shorter
      than 50 characters. */
  predicate ExtractionUsable(text: string) {
    !(text == [] || |Trim(text)| < 50)
  }

  /** The emptiness test is subsumed by the length test: usability depends
      only on the trimmed length, and a usable text has content. */
  lemma UsableIffLongEnough(text: string)
    ensures ExtractionUsable(text) <==> |Trim(text)| >= 50
    ensures ExtractionUsable(text) ==> HasContent(text) && |text| >= 50
  {
  }
}
