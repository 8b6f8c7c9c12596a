/** telegram_bot/handlers.py: what the bot replies to a version query, to
    the version button and to a photo. Telegram itself is left out: a
    handler's effect is the list of texts it sends, in order. */
module Handlers {
  import opened Basics
  import opened PyStr
  import opened Streams
  import opened AzureClient
  import opened Utils

  /** `APP_VERSION` in core/config.py. */
  const AppVersion := "1.01"
  const VersionReply := "Current application version: " + AppVersion
  const VersionCallbackData := "app_version"

  const SendImageMessage := "Please send an image."
  const ProcessingMessage := "⏳ Processing image..."
  const DownloadFailedMessage := "Failed to download image"
  const NoTextMessage := "❌ No text found in the image."
  const NoRegionsMessage := "❌ Could not find any text regions in the image."
  const FailedMessage := "❌ Failed to recognize text after multiple attempts."
  const ServiceErrorMessage := "❌ Error contacting the analysis service. Please try again later."
  const UnexpectedErrorMessage := "❌ An unexpected error occurred while processing the image."

  /** `button_click`: the version is sent only for the button whose data is
      'app_version'. */
  function ButtonClick(data: Option<string>): (replies: seq<string>)
    ensures replies == [VersionReply] || replies == []
    ensures replies != [] <==> data == Some(VersionCallbackData)
  {
    if data == Some(VersionCallbackData) then [VersionReply] else []
  }

  /** `handle_version_text` on the message's text (None when the update has
      no message or the message no text). */
  function HandleVersionText(text: Option<string>): (replies: seq<string>)
  {
    if text.Some? && text.value != "" && Lower(text.value) == "version" then [VersionReply] else []
  }

  /** The spellings that lower-case to "version": seven letters, each the
      lower- or the upper-case letter of "version". */
  predicate IsVersionSpelling(t: string) {
    |t| == 7 && forall k :: 0 <= k < 7 ==> t[k] == "version"[k] || t[k] == "VERSION"[k]
  }

  /** The version is sent exactly for a case variant of "version": nothing
      else, not even with surrounding whitespace. */
  lemma VersionTextIff(text: Option<string>)
    ensures HandleVersionText(text) == [VersionReply] || HandleVersionText(text) == []
    ensures HandleVersionText(text) != [] <==> text.Some? && IsVersionSpelling(text.value)
  {
    if text.Some? && |text.value| == 7 {
      var t := text.value;
      if Lower(t) == "version" {
        forall k | 0 <= k < 7 ensures t[k] == "version"[k] || t[k] == "VERSION"[k] {
          assert LowerChar(t[k]) == "version"[k];
        }
      }
      if IsVersionSpelling(t) {
        forall k | 0 <= k < 7 ensures Lower(t)[k] == "version"[k] {
          assert t[k] == "version"[k] || t[k] == "VERSION"[k];
        }
      }
    }
  }

  /** The text of one line: its words joined by single spaces, then "\n". */
  function LineText(line: Line): string {
    Join(" ", line.words) + "\n"
  }

  /** The text of a run of lines, in order. */
  function LinesText(lines: seq<Line>): string {
    if lines == [] then "" else LinesText(lines[..|lines| - 1]) + LineText(lines[|lines| - 1])
  }

  /** The text `handle_image` collects from the regions: every line's text,
      region by region, line by line. */
  function ExtractedText(regions: seq<Region>): string {
    if regions == [] then ""
    else ExtractedText(regions[..|regions| - 1]) + LinesText(regions[|regions| - 1].lines)
  }

  /** The loop of `handle_image` that builds `extracted_text`. */
  method ExtractText(regions: seq<Region>) returns (text: string)
    ensures text == ExtractedText(regions)
  {
    text := "";
    for i := 0 to |regions|
      invariant text == ExtractedText(regions[..i])
    {
      text := AppendLines(text, regions[i].lines);
      assert regions[..i + 1][..i] == regions[..i];
    }
    assert regions[..|regions|] == regions;
  }

  /** The inner loop over the lines of one region. */
  method AppendLines(prefix: string, lines: seq<Line>) returns (text: string)
    ensures text == prefix + LinesText(lines)
  {
    text := prefix;
    for j := 0 to |lines|
      invariant text == prefix + LinesText(lines[..j])
    {
      text := text + Join(" ", lines[j].words) + "\n";
      assert lines[..j + 1][..j] == lines[..j];
    }
    assert lines[..|lines|] == lines;
  }

  /** Appending regions appends their texts: nothing is reordered or
      dropped. */
  lemma {:induction false} ExtractedTextAppend(a: seq<Region>, b: seq<Region>)
    ensures ExtractedText(a + b) == ExtractedText(a) + ExtractedText(b)
    decreases |b|
  {
    if b == [] {
      assert a + b == a;
    } else {
      var n := |b| - 1;
      var last := LinesText(b[n].lines);
      ExtractedTextAppend(a, b[..n]);
      assert ExtractedText(a + b) == ExtractedText(a + b[..n]) + last by {
        assert (a + b)[..|a + b| - 1] == a + b[..n];
        assert (a + b)[|a + b| - 1] == b[n];
      }
      assert ExtractedText(b) == ExtractedText(b[..n]) + last;
    }
  }

  /** Every word of the line is whitespace only (or there is none). */
  predicate BlankLine(line: Line) {
    forall k :: 0 <= k < |line.words| ==> AllSpace(line.words[k])
  }

  predicate BlankLines(lines: seq<Line>) {
    forall j :: 0 <= j < |lines| ==> BlankLine(lines[j])
  }

  /** No recognised word holds a character that is not whitespace. */
  predicate NoVisibleWord(regions: seq<Region>) {
    forall i :: 0 <= i < |regions| ==> BlankLines(regions[i].lines)
  }

  lemma LineTextAllSpace(line: Line)
    ensures AllSpace(LineText(line)) <==> BlankLine(line)
  {
    AllSpaceConcat(Join(" ", line.words), "\n");
    JoinSpaceAllSpace(line.words);
  }

  lemma {:induction false} LinesTextAllSpace(lines: seq<Line>)
    ensures AllSpace(LinesText(lines)) <==> BlankLines(lines)
    decreases |lines|
  {
    if lines != [] {
      var n := |lines| - 1;
      var init := lines[..n];
      LinesTextAllSpace(init);
      LineTextAllSpace(lines[n]);
      AllSpaceConcat(LinesText(init), LineText(lines[n]));
      assert BlankLines(lines) <==> BlankLines(init) && BlankLine(lines[n]) by {
        assert forall j :: 0 <= j < n ==> init[j] == lines[j];
      }
    }
  }

  lemma {:induction false} ExtractedTextAllSpace(regions: seq<Region>)
    ensures AllSpace(ExtractedText(regions)) <==> NoVisibleWord(regions)
    decreases |regions|
  {
    if regions != [] {
      var n := |regions| - 1;
      var init := regions[..n];
      ExtractedTextAllSpace(init);
      LinesTextAllSpace(regions[n].lines);
      AllSpaceConcat(ExtractedText(init), LinesText(regions[n].lines));
      assert NoVisibleWord(regions) <==> NoVisibleWord(init) && BlankLines(regions[n].lines) by {
        assert forall i :: 0 <= i < n ==> init[i] == regions[i];
      }
    }
  }

  /** The stripped text is empty exactly when no recognised word has a
      visible character: lines without words, regions without lines, or
      words of whitespace only. */
  lemma BlankIffNoVisibleWord(regions: seq<Region>)
    ensures Strip(ExtractedText(regions)) == [] <==> NoVisibleWord(regions)
  {
    StripEmptyIff(ExtractedText(regions));
    ExtractedTextAllSpace(regions);
  }

  /** The reply sequence lines 63-78 of `handle_image` send for the
      response of the retry controller. */
  function SelectReplies(response: Option<OcrResult>): (replies: seq<string>)
    ensures replies != []
    ensures response == None ==> replies == [FailedMessage]
    ensures response.Some? && response.value.regions == [] ==> replies == [NoRegionsMessage]
    ensures response.Some? && response.value.regions != [] && NoVisibleWord(response.value.regions) ==>
              replies == [NoTextMessage]
    ensures response.Some? && !NoVisibleWord(response.value.regions) ==>
              var text := Strip(ExtractedText(response.value.regions));
              replies == Chunks(text, DefaultChunkSize) &&
              Concat(replies) == text &&
              forall k :: 0 <= k < |replies| ==> 0 < |replies[k]| <= DefaultChunkSize
  {
    if response.Some? && response.value.regions != [] then
      var text := Strip(ExtractedText(response.value.regions));
      BlankIffNoVisibleWord(response.value.regions);
      ChunkLengths(text, DefaultChunkSize);
      if text != [] then Chunks(text, DefaultChunkSize) else [NoTextMessage]
    else if response.Some? then [NoRegionsMessage]
    else [FailedMessage]
  }

  /** What `handle_image` reports for an exception that reached it. */
  function ErrorReply(e: Exception): (reply: string)
  {
    match e
    case ServiceRequestError => ServiceErrorMessage
    case ValueError(message) => "❌ " + message
    case OtherError => UnexpectedErrorMessage
  }

  /** Everything `handle_image` sends for a message carrying `photoSizes`
      sizes of a photo whose largest size downloads as `download`, when the
      OCR service answers the analysis' calls by `script`. */
  function ImageReplies(photoSizes: nat, download: seq<byte>, script: nat -> AttemptOutcome): (replies: seq<string>)
  {
    if photoSizes == 0 then [SendImageMessage]
    else if download == [] then [ProcessingMessage, ErrorReply(ValueError(DownloadFailedMessage))]
    else
      match Retry(download, script, DefaultMaxRetries).result
      case Raised(e) => [ProcessingMessage, ErrorReply(e)]
      case Returned(response) => [ProcessingMessage] + SelectReplies(response)
  }

  /** `handle_image`. The photo message is the input: how many sizes it
      has and the bytes its largest size downloads as. */
  method HandleImage(photoSizes: nat, download: seq<byte>, adapter: OcrAdapter) returns (replies: seq<string>)
    modifies adapter
    ensures replies == ImageReplies(photoSizes, download, Later(adapter.script, |old(adapter.requests)|))
    ensures photoSizes == 0 || download == [] ==> adapter.requests == old(adapter.requests)
    ensures |adapter.requests| == |old(adapter.requests)| +
              (if photoSizes == 0 || download == [] then 0
               else Retry(download, Later(adapter.script, |old(adapter.requests)|), DefaultMaxRetries).calls)
    ensures adapter.requests[..|old(adapter.requests)|] == old(adapter.requests)
    ensures forall i :: |old(adapter.requests)| <= i < |adapter.requests| ==>
                        adapter.requests[i] == Request(download, DefaultLanguageHints)
  {
    if photoSizes == 0 {
      replies := [SendImageMessage];
      return;
    }
    replies := [ProcessingMessage];
    if download == [] {
      replies := replies + [ErrorReply(ValueError(DownloadFailedMessage))];
      return;
    }
    var img := new ByteStream(download);
    img.Seek(0);
    var result, _, _ := AnalyzeImageWithRetry(img, adapter, DefaultLanguageHints, DefaultMaxRetries, DefaultRetryDelay);
    match result
    case Raised(e) =>
      replies := replies + [ErrorReply(e)];
    case Returned(response) =>
      if response.Some? && response.value.regions != [] {
        var extracted := ExtractText(response.value.regions);
        var text := Strip(extracted);
        if text != [] {
          var split := SplitLongMessage(text, DefaultChunkSize);
          replies := replies + split.value;
        } else {
          replies := replies + [NoTextMessage];
        }
      } else if response.Some? {
        replies := replies + [NoRegionsMessage];
      } else {
        replies := replies + [FailedMessage];
      }
  }

  /** With the default of three attempts the retry controller never returns
      None to `handle_image`, so the "Failed to recognize text" reply is
      never sent: exhausted retries surface as a ServiceRequestError. */
  lemma FailedReplyUnreachable(download: seq<byte>, script: nat -> AttemptOutcome)
    ensures Retry(download, script, DefaultMaxRetries).result != Returned(None)
  {
    RetryCalls(download, script, DefaultMaxRetries);
  }

  /** A photo recognised on attempt `k + 1` after `k` transient faults is
      answered with the processing notice and then the replies chosen for
      that response. */
  lemma RecognisedPhotoReply(photoSizes: nat, download: seq<byte>, script: nat -> AttemptOutcome, k: nat, response: OcrResult)
    requires 0 < photoSizes && download != [] && k < DefaultMaxRetries
    requires forall j :: 0 <= j < k ==> IsTransient(script(j))
    requires script(k) == Ok(response)
    ensures ImageReplies(photoSizes, download, script) == [ProcessingMessage] + SelectReplies(Some(response))
  {
    SucceedsOnAttempt(download, script, DefaultMaxRetries, k, response);
  }

  /** A falsy response or a non-transient exception after `k` transient
      faults is reported at once: a falsy response as the ValueError "Empty
      response from Azure API", a ValueError by its message, anything else
      by the generic text. */
  lemma FailedPhotoReply(photoSizes: nat, download: seq<byte>, script: nat -> AttemptOutcome, k: nat)
    requires 0 < photoSizes && download != [] && k < DefaultMaxRetries
    requires forall j :: 0 <= j < k ==> IsTransient(script(j))
    requires script(k).Falsy? || (script(k).Raise? && script(k).error != ServiceRequestError)
    ensures ImageReplies(photoSizes, download, script) ==
            [ProcessingMessage,
             match script(k)
             case Raise(ValueError(message)) => "❌ " + message
             case Raise(_) => UnexpectedErrorMessage
             case _ => "❌ " + EmptyResponseMessage]
  {
    StopsOnFailure(download, script, DefaultMaxRetries, k);
  }

  /** A photo whose analysis keeps failing transiently is answered with the
      service-error text after three calls. */
  lemma TransientFailureReply(photoSizes: nat, download: seq<byte>, script: nat -> AttemptOutcome)
    requires 0 < photoSizes && download != []
    requires forall j :: 0 <= j < DefaultMaxRetries ==> IsTransient(script(j))
    ensures ImageReplies(photoSizes, download, script) == [ProcessingMessage, ServiceErrorMessage]
  {
    ExhaustsOnTransients(download, script, DefaultMaxRetries);
  }

  /** Regions [[["a", "b"]], [["c"]]] read "a b\nc". */
  lemma TwoRegionExample()
    ensures Strip(ExtractedText([Region([Line(["a", "b"])]), Region([Line(["c"])])])) == "a b\nc"
  {
    ExampleText();
    ExampleStrip();
  }

  lemma ExampleText()
    ensures ExtractedText([Region([Line(["a", "b"])]), Region([Line(["c"])])]) == "a b\nc\n"
  {
    var first, second := Region([Line(["a", "b"])]), Region([Line(["c"])]);
    assert LinesText(first.lines) == "a b\n" by {
      assert first.lines[..0] == [];
    }
    assert LinesText(second.lines) == "c\n" by {
      assert second.lines[..0] == [];
    }
    assert ExtractedText([first]) == "a b\n" by {
      assert [first][..0] == [];
    }
    assert [first, second][..1] == [first];
  }

  lemma ExampleStrip()
    ensures Strip("a b\nc\n") == "a b\nc"
  {
    var text := "a b\nc\n";
    assert LeadingSpaces(text) == 0;
    assert text[0..] == text;
    assert TrailingSpaces("a b\nc") == 0 by {
      assert !IsSpace('c');
    }
    assert TrailingSpaces(text) == 1 by {
      assert IsSpace(text[|text| - 1]);
      assert text[..|text| - 1] == "a b\nc";
    }
  }
}
