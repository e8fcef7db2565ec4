/** The POSIX logger: formats a line of a timestamp, the thread id and the
    message into a 512-character stack buffer, retries once into a heap
    buffer sized exactly when the line does not fit, adds a missing final
    newline, and writes the line to its file. */
module PosixLogging {

  const MaxThreadIdSize := 32
  const StackBufferSize := 512
  /** Width of the rendered timestamp %04d/%02d/%02d-%02d:%02d:%02d.%06d for
      a four-digit year. */
  const TimestampWidth := 26

  /** The thread id as printed: cut to at most 32 characters. */
  function TruncatedThreadId(threadId: string): (t: string)
    ensures |t| <= MaxThreadIdSize && |t| <= |threadId|
    ensures t == threadId[..|t|]
    ensures |threadId| <= MaxThreadIdSize ==> t == threadId
    ensures |threadId| > MaxThreadIdSize ==> |t| == MaxThreadIdSize
  {
    if |threadId| > MaxThreadIdSize then threadId[..MaxThreadIdSize] else threadId
  }

  /** The header: the rendered timestamp, a space, the (truncated) thread id
      and a space. */
  function Header(stamp: string, threadId: string): (h: string)
    ensures |h| == |stamp| + 2 + |TruncatedThreadId(threadId)|
    ensures |stamp| <= TimestampWidth ==> |h| <= 28 + MaxThreadIdSize < StackBufferSize
  {
    stamp + " " + TruncatedThreadId(threadId) + " "
  }

  /** The line Logv writes: header and message, with a newline added unless
      the text already ends with one. */
  function Line(threadId: string, stamp: string, body: string): string
  {
    var text := Header(stamp, threadId) + body;
    if text[|text| - 1] != '\n' then text + "\n" else text
  }

  /** Every line ends with exactly the newline it needs: the formatted text
      comes first, and a newline is added iff the text did not end in one. */
  lemma LineEndsWithNewline(threadId: string, stamp: string, body: string)
    ensures var text := Header(stamp, threadId) + body;
      var line := Line(threadId, stamp, body);
      && line[..|text|] == text
      && line[|line| - 1] == '\n'
      && (|line| == |text| + 1 <==> text[|text| - 1] != '\n')
      && (|line| == |text| <==> text[|text| - 1] == '\n')
  {
  }

  function Min(a: int, b: int): int
  {
    if a < b then a else b
  }

  /** snprintf into buf[at..at + size): writes the first min(|text|, size - 1)
      characters of the fully formatted text and a NUL after them, and
      returns the length of the fully formatted text. */
  method Snprintf(buf: array<char>, at: nat, size: nat, text: string) returns (n: nat)
    requires 1 <= size && at + size <= buf.Length
    modifies buf
    ensures n == |text|
    ensures var w := Min(|text|, size - 1);
      && buf[at..at + w] == text[..w]
      && buf[at + w] == '\0'
      && forall i :: 0 <= i < buf.Length && !(at <= i <= at + w) ==> buf[i] == old(buf[i])
  {
    var w := Min(|text|, size - 1);
    var k := 0;
    while k < w
      invariant k <= w
      invariant buf[at..at + k] == text[..k]
      invariant forall i :: 0 <= i < buf.Length && !(at <= i < at + k) ==> buf[i] == old(buf[i])
    {
      buf[at + k] := text[k];
      k := k + 1;
    }
    buf[at + w] := '\0';
    n := |text|;
  }

  /** One pass of Logv's loop: snprintf of the header into buffer, then
      vsnprintf of the message after it. Returns the length the full text
      needs; the text is all in the buffer when that leaves room for a
      newline. */
  method FormatInto(buffer: array<char>, bufferSize: nat, header: string, body: string)
    returns (bufferOffset: nat)
    requires bufferSize == buffer.Length && |header| < bufferSize
    modifies buffer
    ensures bufferOffset == |header| + |body|
    ensures bufferOffset < bufferSize - 1 ==> buffer[..bufferOffset] == header + body
  {
    bufferOffset := Snprintf(buffer, 0, bufferSize, header);
    ghost var withHeader := buffer[..];
    var bodyLength := Snprintf(buffer, bufferOffset, bufferSize - bufferOffset, body);
    bufferOffset := bufferOffset + bodyLength;
    if bufferOffset < bufferSize - 1 {
      assert buffer[..|header|] == withHeader[..|header|] == header;
    }
  }

  /** The end of Logv's loop: the text formatted into buffer, followed by a
      newline unless it already ends with one. */
  method Terminate(buffer: array<char>, bufferOffset: nat, ghost text: string) returns (line: string)
    requires 0 < bufferOffset < buffer.Length && buffer[..bufferOffset] == text
    modifies buffer
    ensures line == if text[|text| - 1] != '\n' then text + "\n" else text
  {
    var length := bufferOffset;
    assert buffer[bufferOffset - 1] == text[|text| - 1];
    if buffer[length - 1] != '\n' {
      buffer[length] := '\n';
      length := length + 1;
      assert buffer[..length] == text + "\n";
    }
    line := buffer[..length];
  }

  /** The formatting part of Logv: at most two passes, the second with a heap
      buffer of exactly the formatted length plus two, which always fits.
      Returns the bytes handed to fwrite, the number of passes, and whether a
      heap buffer was allocated (and so freed). */
  method FormatLine(threadId: string, stamp: string, body: string)
    returns (line: string, iterations: nat, heapBuffer: bool)
    requires |stamp| <= TimestampWidth
    ensures line == Line(threadId, stamp, body)
    ensures var length := |Header(stamp, threadId)| + |body|;
      && iterations == (if length >= StackBufferSize - 1 then 2 else 1)
      && (heapBuffer <==> iterations == 2)
      && |line| <= (if iterations == 1 then StackBufferSize else length + 2)
  {
    var tid := threadId;
    if |tid| > MaxThreadIdSize {
      tid := tid[..MaxThreadIdSize];
    }
    ghost var header := Header(stamp, threadId);
    ghost var length := |header| + |body|;
    assert stamp + " " + tid + " " == header;
    var stackBuffer := new char[StackBufferSize];
    var dynamicBufferSize := 0;
    line, iterations, heapBuffer := [], 0, false;
    for iteration := 0 to 2
      invariant iteration <= 1
      invariant iteration == 1 ==> dynamicBufferSize == length + 2 && length >= StackBufferSize - 1
    {
      var bufferSize := if iteration == 0 then StackBufferSize else dynamicBufferSize;
      var buffer := stackBuffer;
      if iteration != 0 {
        buffer := new char[dynamicBufferSize];
      }
      // The header always fits: Header's length bound puts it at most
      // 28 + 32 characters.
      var bufferOffset := FormatInto(buffer, bufferSize, stamp + " " + tid + " ", body);
      if bufferOffset >= bufferSize - 1 {
        if iteration == 0 {
          dynamicBufferSize := bufferOffset + 2;
          continue;
        }
        // The heap buffer was sized to fit: this branch is never taken.
        assert false;
      }
      line := Terminate(buffer, bufferOffset, header + body);
      iterations := iteration + 1;
      heapBuffer := iteration != 0;
      break;
    }
  }

  class PosixLogger {
    /** Everything written to the logger's file so far. */
    var written: string

    constructor ()
      ensures written == []
    {
      written := [];
    }

    /** Formats one line and appends it to the file. */
    method Logv(threadId: string, stamp: string, body: string)
      requires |stamp| <= TimestampWidth
      modifies this
      ensures written == old(written) + Line(threadId, stamp, body)
    {
      var line, _, _ := FormatLine(threadId, stamp, body);
      written := written + line;
    }
  }
}
