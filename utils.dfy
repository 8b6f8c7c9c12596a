/** core/utils.py: the OCR retry controller `analyze_image_with_retry` and
    the positional chunker `split_long_message`. */
module Utils {
  import opened Basics
  import opened PyStr
  import opened Streams
  import opened AzureClient

  const DefaultLanguageHints: seq<string> := ["en", "ru"]
  const DefaultMaxRetries := 3
  const DefaultRetryDelay := 2
  const DefaultChunkSize := 4000

  const EmptyImageMessage := "Empty image data received"
  const EmptyResponseMessage := "Empty response from Azure API"
  /** The message of the ValueError `range()` raises for a zero step. */
  const ZeroStepMessage := "range() arg 3 must not be zero"

  /** How a call of `analyze_image_with_retry` ends: it returns a response
      (None when the loop never runs) or an exception escapes it. */
  datatype RetryResult = Returned(response: Option<OcrResult>) | Raised(error: Exception)

  /** A run of the retry loop: how it ends, how many adapter calls it makes
      and how many times it sleeps between them. */
  datatype Run = Run(result: RetryResult, calls: nat, sleeps: nat)

  predicate IsTransient(o: AttemptOutcome) {
    o == Raise(ServiceRequestError)
  }

  /** How the attempt that ends the loop turns its outcome into the result. */
  function Settle(o: AttemptOutcome): RetryResult {
    match o
    case Ok(response) => Returned(Some(response))
    case Falsy => Raised(ValueError(EmptyResponseMessage))
    case Raise(e) => Raised(e)
  }

  /** The loop of `analyze_image_with_retry` from the 0-based `attempt` on:
      a transient fault sleeps and retries unless it is the last attempt;
      every other outcome ends the loop. */
  function RunFrom(script: nat -> AttemptOutcome, attempt: nat, maxRetries: int): Run
    decreases maxRetries - attempt
  {
    if maxRetries <= attempt then Run(Returned(None), 0, 0)
    else if IsTransient(script(attempt)) && attempt < maxRetries - 1 then
      var rest := RunFrom(script, attempt + 1, maxRetries);
      Run(rest.result, rest.calls + 1, rest.sleeps + 1)
    else Run(Settle(script(attempt)), 1, 0)
  }

  /** The outcomes of the calls that follow the first `done` ones. */
  function Later(script: nat -> AttemptOutcome, done: nat): (later: nat -> AttemptOutcome) {
    (k: nat) => script(done + k)
  }

  /** `analyze_image_with_retry` on an open stream holding `image`. */
  function Retry(image: seq<byte>, script: nat -> AttemptOutcome, maxRetries: int): Run {
    if image == [] then Run(Raised(ValueError(EmptyImageMessage)), 0, 0)
    else RunFrom(script, 0, maxRetries)
  }

  /** `analyze_image_with_retry(img, language_hints, max_retries, retry_delay)`.
      The image bytes are read once from `img`; the caller's stream is
      closed on every way out. Returns how the call ends, the number of
      attempts and the delays slept, in order. */
  method AnalyzeImageWithRetry(img: ByteStream, adapter: OcrAdapter, languageHints: seq<string>,
                               maxRetries: int, retryDelay: int)
    returns (result: RetryResult, attempts: nat, delays: seq<int>)
    modifies img, adapter
    ensures img.closed
    ensures old(img.closed) ==> result == Raised(ValueError(ClosedFileMessage)) && attempts == 0 && delays == []
    ensures !old(img.closed) ==>
              Run(result, attempts, |delays|) == Retry(img.buffer, Later(adapter.script, |old(adapter.requests)|), maxRetries)
    ensures forall k :: 0 <= k < |delays| ==> delays[k] == retryDelay
    ensures |adapter.requests| == |old(adapter.requests)| + attempts
    ensures adapter.requests[..|old(adapter.requests)|] == old(adapter.requests)
    ensures forall i :: |old(adapter.requests)| <= i < |adapter.requests| ==>
                        adapter.requests[i] == Request(img.buffer, languageHints)
  {
    result, attempts, delays := Returned(None), 0, [];
    var value := img.GetValue();
    if value.Failure? {
      result := Raised(value.error);
    } else if value.value == [] {
      result := Raised(ValueError(EmptyImageMessage));
    } else {
      result, attempts, delays := AttemptLoop(value.value, adapter, languageHints, maxRetries, retryDelay);
    }
    img.Close();
  }

  /** The `for attempt in range(max_retries)` loop of
      `analyze_image_with_retry`: every attempt builds a fresh stream over
      the same bytes, positioned at offset 0, and hands it to the adapter. */
  method AttemptLoop(imageBytes: seq<byte>, adapter: OcrAdapter, languageHints: seq<string>,
                     maxRetries: int, retryDelay: int)
    returns (result: RetryResult, attempts: nat, delays: seq<int>)
    modifies adapter
    ensures Run(result, attempts, |delays|) == RunFrom(Later(adapter.script, |old(adapter.requests)|), 0, maxRetries)
    ensures forall k :: 0 <= k < |delays| ==> delays[k] == retryDelay
    ensures |adapter.requests| == |old(adapter.requests)| + attempts
    ensures adapter.requests[..|old(adapter.requests)|] == old(adapter.requests)
    ensures forall i :: |old(adapter.requests)| <= i < |adapter.requests| ==>
                        adapter.requests[i] == Request(imageBytes, languageHints)
  {
    result, attempts, delays := Returned(None), 0, [];
    ghost var before := adapter.requests;
    ghost var script := Later(adapter.script, |before|);
    var attempt := 0;
    while attempt < maxRetries
      invariant attempts == attempt == |delays|
      invariant result == Returned(None)
      invariant Prefixed(RunFrom(script, 0, maxRetries), RunFrom(script, attempt, maxRetries), attempt)
      invariant forall k :: 0 <= k < |delays| ==> delays[k] == retryDelay
      invariant |adapter.requests| == |before| + attempts
      invariant adapter.requests[..|before|] == before
      invariant forall i :: |before| <= i < |adapter.requests| ==> adapter.requests[i] == Request(imageBytes, languageHints)
      decreases maxRetries - attempt
    {
      var outcome := Attempt(imageBytes, adapter, languageHints);
      assert outcome == script(attempt);
      attempts := attempts + 1;
      if IsTransient(outcome) && attempt < maxRetries - 1 {
        delays := delays + [retryDelay];
      } else {
        result := Settle(outcome);
        break;
      }
      attempt := attempt + 1;
    }
  }

  /** One attempt: a new stream over the bytes, sought to offset 0, handed
      to the adapter, which therefore receives all of the bytes. */
  method Attempt(imageBytes: seq<byte>, adapter: OcrAdapter, languageHints: seq<string>)
    returns (outcome: AttemptOutcome)
    modifies adapter
    ensures outcome == adapter.script(|old(adapter.requests)|)
    ensures adapter.requests == old(adapter.requests) + [Request(imageBytes, languageHints)]
  {
    var current := new ByteStream(imageBytes);
    current.Seek(0);
    outcome := adapter.AnalyzeImage(current, languageHints);
  }

  /** `whole` is `rest` preceded by `k` transient faults and their sleeps. */
  predicate Prefixed(whole: Run, rest: Run, k: nat) {
    whole == Run(rest.result, rest.calls + k, rest.sleeps + k)
  }

  /** After `k` transient faults the run is the run from attempt `k` on,
      plus those `k` calls and `k` sleeps. */
  lemma {:induction false} RunAfterTransients(script: nat -> AttemptOutcome, maxRetries: int, k: nat)
    requires k < maxRetries
    requires forall j :: 0 <= j < k ==> IsTransient(script(j))
    ensures var rest := RunFrom(script, k, maxRetries);
            RunFrom(script, 0, maxRetries) == Run(rest.result, rest.calls + k, rest.sleeps + k)
  {
    if k > 0 {
      RunAfterTransients(script, maxRetries, k - 1);
    }
  }

  /** A first truthy response on attempt `k + 1` (of at most `max_retries`)
      is returned unchanged after exactly `k + 1` calls and `k` delays. */
  lemma SucceedsOnAttempt(image: seq<byte>, script: nat -> AttemptOutcome, maxRetries: int, k: nat, response: OcrResult)
    requires image != [] && k < maxRetries
    requires forall j :: 0 <= j < k ==> IsTransient(script(j))
    requires script(k) == Ok(response)
    ensures Retry(image, script, maxRetries) == Run(Returned(Some(response)), k + 1, k)
  {
    RunAfterTransients(script, maxRetries, k);
  }

  /** A falsy response or a non-transient exception on attempt `k + 1` ends
      the loop at once: no later attempt is made. */
  lemma StopsOnFailure(image: seq<byte>, script: nat -> AttemptOutcome, maxRetries: int, k: nat)
    requires image != [] && k < maxRetries
    requires forall j :: 0 <= j < k ==> IsTransient(script(j))
    requires script(k).Falsy? || (script(k).Raise? && script(k).error != ServiceRequestError)
    ensures var run := Retry(image, script, maxRetries);
            run.calls == k + 1 && run.sleeps == k &&
            run.result == if script(k).Falsy? then Raised(ValueError(EmptyResponseMessage)) else Raised(script(k).error)
  {
    RunAfterTransients(script, maxRetries, k);
  }

  /** If every attempt raises ServiceRequestError, the adapter is called
      exactly `max_retries` times, with `max_retries - 1` sleeps between,
      and the ServiceRequestError escapes. */
  lemma ExhaustsOnTransients(image: seq<byte>, script: nat -> AttemptOutcome, maxRetries: int)
    requires image != [] && 0 < maxRetries
    requires forall j :: 0 <= j < maxRetries ==> IsTransient(script(j))
    ensures Retry(image, script, maxRetries) == Run(Raised(ServiceRequestError), maxRetries, maxRetries - 1)
  {
    RunAfterTransients(script, maxRetries, maxRetries - 1);
  }

  /** The whole behaviour of the loop in one statement: it makes at most
      `max_retries` calls, sleeps once between two consecutive calls, retries
      only after a transient fault, stops early only on an outcome that is
      not one, and the outcome of the last call decides the result. */
  lemma {:induction false} RunShape(script: nat -> AttemptOutcome, attempt: nat, maxRetries: int)
    ensures var run := RunFrom(script, attempt, maxRetries);
            (run.calls == 0 <==> maxRetries <= attempt) &&
            (run.calls == 0 ==> run.result == Returned(None) && run.sleeps == 0) &&
            (run.calls > 0 ==>
              attempt + run.calls <= maxRetries &&
              run.sleeps == run.calls - 1 &&
              (forall j :: attempt <= j < attempt + run.calls - 1 ==> IsTransient(script(j))) &&
              (attempt + run.calls < maxRetries ==> !IsTransient(script(attempt + run.calls - 1))) &&
              run.result == Settle(script(attempt + run.calls - 1)))
    decreases maxRetries - attempt
  {
    if attempt < maxRetries && IsTransient(script(attempt)) && attempt < maxRetries - 1 {
      RunShape(script, attempt + 1, maxRetries);
    }
  }

  /** Empty input is rejected before any call; `max_retries <= 0` makes no
      call and returns None; otherwise at least one call is made. */
  lemma RetryCalls(image: seq<byte>, script: nat -> AttemptOutcome, maxRetries: int)
    ensures var run := Retry(image, script, maxRetries);
            (image == [] ==> run == Run(Raised(ValueError(EmptyImageMessage)), 0, 0)) &&
            (image != [] && maxRetries <= 0 ==> run == Run(Returned(None), 0, 0)) &&
            (image != [] && 0 < maxRetries ==> 0 < run.calls <= maxRetries && run.result != Returned(None))
  {
    RunShape(script, 0, maxRetries);
  }

  /** Only the first `max_retries` scripted outcomes matter. */
  lemma {:induction false} RunFromDependsOnPrefix(s1: nat -> AttemptOutcome, s2: nat -> AttemptOutcome, attempt: nat, maxRetries: int)
    requires forall j :: attempt <= j < maxRetries ==> s1(j) == s2(j)
    ensures RunFrom(s1, attempt, maxRetries) == RunFrom(s2, attempt, maxRetries)
    decreases maxRetries - attempt
  {
    if attempt < maxRetries {
      RunFromDependsOnPrefix(s1, s2, attempt + 1, maxRetries);
    }
  }

  /** `[text[i:i + size] for i in range(0, len(text), size)]` for a positive
      `size`: the pieces concatenate back to `text`. */
  function Chunks(text: string, size: nat): (r: seq<string>)
    requires 0 < size
    ensures Concat(r) == text
    decreases |text|
  {
    if text == [] then []
    else if |text| <= size then [text]
    else
      var rest := Chunks(text[size..], size);
      assert text == text[..size] + text[size..];
      [text[..size]] + rest
  }

  /** No chunk is empty, every chunk but the last has exactly `size`
      characters and the last at most `size`. */
  lemma {:induction false} ChunkLengths(text: string, size: nat)
    requires 0 < size
    ensures forall k :: 0 <= k < |Chunks(text, size)| ==> 0 < |Chunks(text, size)[k]| <= size
    ensures forall k :: 0 <= k < |Chunks(text, size)| - 1 ==> |Chunks(text, size)[k]| == size
    decreases |text|
  {
    if |text| > size {
      assert Chunks(text, size) == [text[..size]] + Chunks(text[size..], size);
      ChunkLengths(text[size..], size);
    }
  }

  /** The number of chunks is the ceiling of `|text| / size`: empty text
      gives no chunk, and `|r|` chunks of at most `size` are just enough. */
  lemma {:induction false} ChunkCount(text: string, size: nat)
    requires 0 < size
    ensures var r := Chunks(text, size);
            (r == [] <==> text == []) && (|r| - 1) * size < |text| <= |r| * size
    decreases |text|
  {
    if |text| > size {
      ChunkCount(text[size..], size);
    }
  }

  function Min(a: int, b: int): int {
    if a <= b then a else b
  }

  /** Chunk `k` is the slice `text[k * size : (k + 1) * size]` the list
      comprehension builds: the at most `size` characters from `k * size` on. */
  lemma {:induction false} ChunkAt(text: string, size: nat, k: nat)
    requires 0 < size && k < |Chunks(text, size)|
    ensures k * size < |text|
    ensures Chunks(text, size)[k] == text[k * size..][..Min(size, |text| - k * size)]
    decreases |text|
  {
    if k > 0 {
      var tail := text[size..];
      assert Chunks(text, size)[k] == Chunks(tail, size)[k - 1];
      ChunkAt(tail, size, k - 1);
      var previous := (k - 1) * size;
      assert previous + size == k * size by { NextOffset(k, size); }
      assert tail[previous..] == text[k * size..];
      assert |tail| - previous == |text| - k * size;
    }
  }

  lemma NextOffset(k: nat, size: nat)
    requires 0 < k
    ensures (k - 1) * size + size == k * size
  {
  }

  /** `split_long_message(text, chunk_size)`: positional chunks for a
      positive size; `range()` rejects a zero step with a ValueError, and a
      negative step over `range(0, len(text))` yields no chunk at all. */
  function SplitLongMessage(text: string, chunkSize: int): (r: Result<seq<string>, Exception>)
    ensures chunkSize == 0 <==> r.Failure?
    ensures 0 < chunkSize ==> r.Success? && Concat(r.value) == text &&
                              forall k :: 0 <= k < |r.value| ==> 0 < |r.value[k]| <= chunkSize
    ensures chunkSize < 0 ==> r == Success([])
  {
    if chunkSize == 0 then Failure(ValueError(ZeroStepMessage))
    else if chunkSize < 0 then Success([])
    else
      ChunkLengths(text, chunkSize);
      Success(Chunks(text, chunkSize))
  }

  /** A 9000-character text splits into chunks of 4000, 4000 and 1000. */
  lemma NineThousandCharacters(text: string)
    requires |text| == 9000
    ensures var r := Chunks(text, DefaultChunkSize);
            |r| == 3 && |r[0]| == 4000 && |r[1]| == 4000 && |r[2]| == 1000
  {
    ChunkLengths(text, DefaultChunkSize);
    ChunkCount(text, DefaultChunkSize);
    ChunkAt(text, DefaultChunkSize, 2);
  }
}
