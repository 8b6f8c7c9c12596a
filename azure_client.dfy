/** The remote OCR call, `analyze_image` in core/azure_client.py, as an
    abstract adapter. The Azure SDK call it wraps is foreign code, so the
    adapter answers each call from a script fixed in advance: the outcome
    of the n-th call (counting from 0) is `script(n)`. It records what
    every call was given. */
module AzureClient {
  import opened Basics
  import opened Streams

  /** The recognised text, coarsest to finest: regions, lines, words. */
  datatype Line = Line(words: seq<string>)
  datatype Region = Region(lines: seq<Line>)
  datatype OcrResult = OcrResult(regions: seq<Region>)

  /** What one call can do: return a result object, return a falsy value
      (such as None), or raise. */
  datatype AttemptOutcome =
    | Ok(response: OcrResult)
    | Falsy
    | Raise(error: Exception)

  /** What one call was given: the bytes it read and the language hints. */
  datatype Request = Request(content: seq<byte>, languageHints: seq<string>)

  class OcrAdapter {
    const script: nat -> AttemptOutcome
    /** Every call so far, in order. */
    var requests: seq<Request>

    constructor (script: nat -> AttemptOutcome)
      ensures this.script == script && requests == []
    {
      this.script := script;
      requests := [];
    }

    /** `analyze_image(stream, language_hints)`: reads the stream to its
        end and answers with the next scripted outcome. */
    method AnalyzeImage(stream: ByteStream, languageHints: seq<string>) returns (outcome: AttemptOutcome)
      requires !stream.closed
      modifies this, stream
      ensures outcome == script(|old(requests)|)
      ensures requests == old(requests) + [Request(old(stream.Remaining()), languageHints)]
      ensures !stream.closed && stream.Remaining() == []
    {
      var content := stream.Read();
      outcome := script(|requests|);
      requests := requests + [Request(content, languageHints)];
    }
  }
}
