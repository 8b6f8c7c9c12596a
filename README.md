# ImageToTextBot: retry controller, chunker and reply logic in Dafny

ImageToTextBot is a Telegram bot that reads the text in a photo with the
Azure Computer Vision OCR service and sends it back. This project models the
two files that hold its logic and proves what they promise:

- `core/utils.py`
  - `analyze_image_with_retry` reads the image bytes once and rejects an empty image.
    It then calls the OCR service up to `max_retries` times, each time on a fresh stream at offset 0.
    It sleeps `retry_delay` between attempts after a transient `ServiceRequestError`,
    and re-raises that error on the last attempt.
    A falsy response becomes `ValueError("Empty response from Azure API")`.
    Any other exception escapes at once.
    The caller's stream is closed on every way out.
  - `split_long_message` cuts a text into pieces of `chunk_size` characters.
- `telegram_bot/handlers.py`
  - `handle_image` flattens the regions → lines → words of the OCR result into text.
    It strips that text and answers with its chunks or with one of three fixed messages.
    It reports errors by kind.
  - `handle_version_text` and `button_click` send the version.

Files, one module each:

- `basics.dfy` (`Basics`): `Option`, `Result`, the exceptions the bot tells apart (`ServiceRequestError`, `ValueError(message)`, any other), bytes.
- `pystr.dfy` (`PyStr`): the Python `str` built-ins the bot uses (`isspace`, `strip`, `lower`, `" ".join`), and `Concat`, the concatenation used to state the chunker's round trip.
- `streams.dfy` (`Streams`): `io.BytesIO` as the class `ByteStream`, with a buffer, a cursor and a `closed` flag.
- `azure_client.dfy` (`AzureClient`): the OCR result (`Line`, `Region`, `OcrResult`) and the adapter `OcrAdapter`.
  The adapter stands for `analyze_image`. It answers its n-th call with a scripted outcome `script(n)`: `Ok(response)`, `Falsy` or `Raise(exception)`.
  It records the bytes and language hints of every call.
- `utils.dfy` (`Utils`): the retry loop as the method `AnalyzeImageWithRetry`.
  The method is proved equal to the specification function `Retry` / `RunFrom`, which gives the result, the number of calls and the number of sleeps.
  The module also holds the lemmas about that function, the chunker `Chunks` / `SplitLongMessage` and its lemmas.
- `handlers.dfy` (`Handlers`): the reply logic.
  `ExtractText` is the nested loop, proved equal to the function `ExtractedText`.
  `SelectReplies` chooses the replies.
  `HandleImage` composes the download check, the retry controller and the reply choice; the function `ImageReplies` specifies it.

Facts about the code that the model keeps:

- A response with zero regions gets its own reply, "Could not find any text regions". It is not the "No text found" reply.
- Every line is followed by `"\n"` and the text is then stripped, so lines are separated by one `"\n"` and the text does not end with one.
- With `max_retries <= 0` the function returns None without calling the service.

With the default of three attempts, `analyze_image_with_retry` never returns None.
So the "Failed to recognize text after multiple attempts" reply of `handle_image` is never sent: exhausted retries reach the user as the service-error message (`FailedReplyUnreachable`).

## Model

| member | source | states |
|---|---|---|
| `AzureClient.OcrAdapter.AnalyzeImage` | core/azure_client.py:23-31 | one call per invocation: it reads the stream from its cursor to the end, leaving nothing unread, records those bytes with the language hints, and answers with the outcome scripted for that call's index |
| `Utils.AnalyzeImageWithRetry` | core/utils.py:21-62 | the caller's stream is closed on every exit; a closed stream raises ValueError with no call and no sleep; otherwise the result, the number of calls and the number of sleeps are those of `Retry`; every delay is `retry_delay`; every call received the full image bytes (not a partial stream) and the same language hints |
| `Utils.AttemptLoop` | core/utils.py:29-54 | the `for attempt in range(max_retries)` loop yields the result, calls and sleeps of `RunFrom` on the adapter's upcoming outcomes; every sleep is `retry_delay`; every call received the whole image and the hints |
| `Utils.Attempt` | core/utils.py:31-39 | one attempt wraps the bytes in a fresh stream at offset 0, so the adapter records exactly the image bytes, and its outcome is the one scripted for that call |
| `Utils.RunAfterTransients` | core/utils.py:29-51 | after k transient faults the run is the run from attempt k, plus k calls and k sleeps |
| `Utils.SucceedsOnAttempt` | core/utils.py:36-44 | a first truthy response on attempt k+1 ≤ max_retries is returned unchanged after exactly k+1 calls and k sleeps |
| `Utils.StopsOnFailure` | core/utils.py:36-54 | a falsy response (as ValueError "Empty response from Azure API") or a non-ServiceRequestError exception on attempt k+1 ends the run with exactly k+1 calls; that error escapes |
| `Utils.ExhaustsOnTransients` | core/utils.py:45-51 | if every attempt raises ServiceRequestError: exactly max_retries calls, max_retries−1 sleeps, and ServiceRequestError escapes |
| `Utils.RunShape` | core/utils.py:29-54 | for every script: no call iff the loop range is empty (then None, no sleep); otherwise at most max_retries calls, one sleep between consecutive calls, every call but the last was a transient fault, an early stop happens only on a non-transient outcome, and the last outcome decides the result |
| `Utils.RetryCalls` | core/utils.py:25-29 | empty image bytes raise "Empty image data received" with zero calls; max_retries ≤ 0 returns None with zero calls; otherwise 1..max_retries calls and never a None result |
| `Utils.RunFromDependsOnPrefix` | core/utils.py:29 | only the outcomes of the first max_retries calls influence the run |
| `Utils.Chunks` | core/utils.py:64-66 | the chunks concatenate back to the text: nothing is lost, duplicated or reordered |
| `Utils.ChunkLengths` | core/utils.py:66 | each chunk is non-empty and at most chunk_size long; all but the last are exactly chunk_size long |
| `Utils.ChunkCount` | core/utils.py:66 | the number of chunks is ⌈len/chunk_size⌉: none for empty text, and (n−1)·size < len ≤ n·size |
| `Utils.ChunkAt` | core/utils.py:66 | chunk k is exactly the slice text[k·size : (k+1)·size] of the list comprehension |
| `Utils.SplitLongMessage` | core/utils.py:64-66 | a zero chunk size raises ValueError (from `range`); a negative one gives no chunk; a positive one gives chunks that concatenate to the text, each at most chunk_size long |
| `Utils.NineThousandCharacters` | core/utils.py:64-66 | a 9000-character text with the default size splits into chunks of 4000, 4000 and 1000 characters |
| `PyStr.StripSlice` | telegram_bot/handlers.py:69 | `strip()` returns the slice between the leading and the trailing whitespace runs, and neither end of it is whitespace |
| `PyStr.StripEmptyIff` | telegram_bot/handlers.py:69 | `strip()` is empty exactly for an all-whitespace string |
| `Handlers.ButtonClick` | telegram_bot/handlers.py:20-25 | the version reply is sent iff the callback data is 'app_version' |
| `Handlers.VersionTextIff` | telegram_bot/handlers.py:27-30 | the version reply is sent iff the text is one of the case variants of "version"; surrounding whitespace defeats the match |
| `Handlers.ExtractText` | telegram_bot/handlers.py:64-67 | the nested loop builds exactly `ExtractedText`: for each region, for each line, the words joined by one space followed by "\n" |
| `Handlers.AppendLines` | telegram_bot/handlers.py:66-67 | the inner loop appends the text of every line of one region, in order, to what was collected so far |
| `Handlers.ExtractedTextAppend` | telegram_bot/handlers.py:65-67 | the text of a concatenation of region lists is the concatenation of their texts: nothing reordered or dropped |
| `Handlers.BlankIffNoVisibleWord` | telegram_bot/handlers.py:64-69 | the stripped text is empty iff no recognised word has a non-whitespace character |
| `Handlers.SelectReplies` | telegram_bot/handlers.py:63-78 | exactly one branch: None gives "Failed to recognize…"; no regions gives "Could not find any text regions…"; regions without a visible word give "No text found…"; otherwise the chunks of the stripped text, which concatenate back to it, each at most 4000 characters |
| `Handlers.HandleImage` | telegram_bot/handlers.py:32-93 | the replies are `ImageReplies` of the inputs; no photo or an empty download makes no OCR call; otherwise exactly as many OCR calls as `Retry` counts are appended and earlier ones are kept; every OCR call gets the downloaded bytes and the hints ["en", "ru"] |
| `Handlers.FailedReplyUnreachable` | telegram_bot/handlers.py:58-78 | with the default three attempts the retry controller never returns None, so the "Failed to recognize" branch is dead |
| `Handlers.RecognisedPhotoReply` | telegram_bot/handlers.py:58-78 | a response on attempt k+1 after k transient faults is answered with the processing notice, then the replies chosen for it |
| `Handlers.FailedPhotoReply` | telegram_bot/handlers.py:80-88 | a falsy response is reported as "❌ Empty response from Azure API", a ValueError as "❌ " + its message, any other exception as the generic text |
| `Handlers.TransientFailureReply` | telegram_bot/handlers.py:80-82 | three transient faults are reported with the "Error contacting the analysis service" text |
| `Handlers.TwoRegionExample` | telegram_bot/handlers.py:64-71 | the regions [[["a","b"]],[["c"]]] read "a b\nc" once stripped |

## Left out

- Telegram I/O is not modelled: `reply_text`, `get_file`, `download_as_bytearray`, `query.answer`, deleting the processing message, and keyboards. A handler's effect is the list of texts it sends. The download is an input.
- `start` (telegram_bot/handlers.py:12-18) only sends a welcome text with a keyboard. It is not modelled.
- `handle_image` with no message at all (`update.message` None) is not modelled; the photo filter in main.py only routes messages with photos. A message without a photo is modelled; it gets "Please send an image.".
- Exceptions raised by the Telegram download calls themselves are not modelled. The download is given as bytes.
- The Azure SDK call in core/azure_client.py runs on a worker thread. It is foreign code, so it becomes the scripted adapter.
- `asyncio.sleep` is a delay recorded in the returned list, not time. Logging is left out.
- `str.lower()` and `str.strip()` are modelled for ASCII only; non-ASCII characters are neither whitespace nor changed by lowering.
- main.py (wiring and polling), health_check/server.py (liveness HTTP server) and core/config.py (environment variables) are not part of this model. `APP_VERSION` = "1.01" is taken over as a constant.
- Concurrency between updates is not modelled.
