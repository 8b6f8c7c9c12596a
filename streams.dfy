/** Python's `io.BytesIO`, as far as the bot uses it: an in-memory byte
    buffer with a cursor that a reader consumes, and a `closed` flag. */
module Streams {
  import opened Basics

  /** The message of the ValueError that `io.BytesIO` raises once closed. */
  const ClosedFileMessage := "I/O operation on closed file."

  class ByteStream {
    /** The buffer; nothing in the bot writes into a stream. */
    const buffer: seq<byte>
    /** The cursor a reader starts from. */
    var pos: nat
    var closed: bool

    /** `io.BytesIO(initial)`: an open stream positioned at offset 0. */
    constructor (initial: seq<byte>)
      ensures buffer == initial && pos == 0 && !closed
    {
      buffer := initial;
      pos := 0;
      closed := false;
    }

    /** The bytes a full `read()` would return from the current position. */
    function Remaining(): (r: seq<byte>)
      reads this
    {
      if pos <= |buffer| then buffer[pos..] else []
    }

    /** `getvalue()`: the whole buffer, whatever the cursor; a ValueError
        once the stream is closed. */
    method GetValue() returns (r: Result<seq<byte>, Exception>)
      ensures closed ==> r == Failure(ValueError(ClosedFileMessage))
      ensures !closed ==> r == Success(buffer)
    {
      if closed {
        r := Failure(ValueError(ClosedFileMessage));
      } else {
        r := Success(buffer);
      }
    }

    /** `seek(offset)` on an open stream. */
    method Seek(offset: nat)
      requires !closed
      modifies this
      ensures pos == offset && !closed
    {
      pos := offset;
    }

    /** `read()` on an open stream: everything from the cursor on, leaving
        the cursor at the end. */
    method Read() returns (data: seq<byte>)
      requires !closed
      modifies this
      ensures data == old(Remaining()) && Remaining() == [] && !closed
    {
      data := Remaining();
      if pos < |buffer| {
        pos := |buffer|;
      }
    }

    /** `close()`; closing twice is harmless. */
    method Close()
      modifies this
      ensures closed && pos == old(pos)
    {
      closed := true;
    }
  }
}
