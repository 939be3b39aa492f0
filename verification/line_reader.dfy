/**
 * Szotar's Utf8LineReader as an object: a 1024-byte buffer over a seekable byte stream, the
 * cursor fields position / offset / bytesInBuffer, the EndOfStream flag and the line counter.
 * Every operation is proved against the pure specification in module LineSpec.
 */
module LineReader {
  import opened Wrappers
  import opened LineSpec

  /** A read-only file opened as a seekable stream: immutable contents and a read cursor, which a
      seek may put past the end. */
  class ByteStream {
    const data: seq<bv8>
    var pos: nat

    constructor (contents: seq<bv8>)
      ensures data == contents && pos == 0
    {
      data := contents;
      pos := 0;
    }

    /** Stream.Seek(offset, SeekOrigin.Begin); a negative offset is refused (an IOException). */
    method Seek(offset: int) returns (ok: bool)
      modifies this
      ensures ok <==> offset >= 0
      ensures pos == if ok then offset else old(pos)
    {
      ok := offset >= 0;
      if ok {
        pos := offset;
      }
    }

    /** Stream.Read(dest, 0, dest.Length): copies all remaining bytes, at most dest.Length, to the front
        of dest; returns 0 only at the end of the data. */
    method Read(dest: array<bv8>) returns (n: nat)
      modifies this, dest
      ensures n == Min(dest.Length, if old(pos) < |data| then |data| - old(pos) else 0)
      ensures pos == old(pos) + n
      ensures forall i :: 0 <= i < n ==> dest[i] == data[old(pos) + i]
      ensures forall i :: n <= i < dest.Length ==> dest[i] == old(dest[i])
    {
      n := Min(dest.Length, if pos < |data| then |data| - pos else 0);
      for i := 0 to n
        invariant pos == old(pos)
        invariant forall k :: 0 <= k < i ==> dest[k] == data[pos + k]
        invariant forall k :: i <= k < dest.Length ==> dest[k] == old(dest[k])
      {
        dest[i] := data[pos + i];
      }
      pos := pos + n;
    }
  }

  /** The `for` loop of ReadLine over buf[lo..hi], which holds data[base + lo..base + hi]: it stops
      just after the first LF, counting the terminator bytes (CR LF or LF) in lbChars, or at hi, with
      lbChars 1 when the last byte scanned is a CR. `stop` is the buffer index reached. */
  method ScanBytes(buf: array<bv8>, lo: nat, hi: nat, ghost data: seq<bv8>, ghost base: nat)
    returns (stop: nat, lineBreakFound: bool, lbChars: nat)
    requires lo <= hi <= buf.Length && (lo == hi || base + hi <= |data|)
    requires forall i :: lo <= i < hi ==> base + i < |data| && buf[i] == data[base + i]
    ensures lo <= stop <= hi
    ensures ScanChunk(data, base + lo, base + hi) == Scan(base + stop, lineBreakFound, lbChars)
  {
    lbChars := 0;
    lineBreakFound := false;
    stop := lo;
    while stop < hi
      invariant lo <= stop <= hi
      invariant forall k :: base + lo <= k < base + stop ==> data[k] != LF
      invariant lbChars == if stop > lo && data[base + stop - 1] == CR then 1 else 0
    {
      var b := buf[stop];
      if b == CR {
        // A CR on its own is not a line break; it is held back in case an LF follows.
        lbChars := 1;
      } else if b == LF {
        if lbChars == 0 {
          lbChars := 1;
        } else if lbChars == 1 {
          lbChars := 2;
        }
        lineBreakFound := true;
        stop := stop + 1;
        break;
      } else {
        lbChars := 0;
      }
      stop := stop + 1;
    }
    ScanOutcome(data, base + lo, base + hi, base + stop, lineBreakFound, lbChars);
  }

  class Utf8LineReader {
    const stream: ByteStream
    const buffer: array<bv8>
    /** The UTF-8 decoder, fed the bytes of one line; left uninterpreted. */
    const decode: seq<bv8> -> string

    var position: int
    var offset: int
    var bytesInBuffer: int
    var EndOfStream: bool
    /** Line number, -1 once a seek made it unknown. */
    var Line: int

    ghost predicate Valid()
      reads this, stream, buffer
    {
      Buffered() && Line >= -1
    }

    /** The buffer invariant: the window buffer[0 .. bytesInBuffer) holds the stream bytes that end at
        the stream's position, and position sits offset bytes into it. */
    ghost predicate Buffered()
      reads this`position, this`offset, this`bytesInBuffer, this`EndOfStream, stream, buffer
    {
      && buffer.Length == BufferSize
      && 0 <= offset <= bytesInBuffer <= BufferSize
      && offset <= position
      && stream.pos == position - offset + bytesInBuffer
      && (bytesInBuffer > 0 ==> stream.pos <= |stream.data|)
      && Holds(position - offset)
      && Untouched()
      && (EndOfStream ==> offset == 0 && bytesInBuffer == 0 && stream.pos >= |stream.data|)
    }

    /** Bytes at or past index |data| were never read into the buffer: they keep their initial 0. */
    ghost predicate Untouched()
      reads stream, buffer
    {
      forall i :: |stream.data| <= i < buffer.Length ==> buffer[i] == 0
    }

    /** The buffered bytes are the stream bytes from offset `base` on. */
    ghost predicate Holds(base: int)
      reads this`bytesInBuffer, stream, buffer
      requires 0 <= base && bytesInBuffer <= buffer.Length
    {
      forall i :: 0 <= i < bytesInBuffer ==> base + i < |stream.data| && buffer[i] == stream.data[base + i]
    }

    /** The reader's state as seen by the specification. */
    ghost function State(): (c: Cursor)
      reads this, stream, buffer
      requires Valid()
      ensures WellFormed(stream.data, c)
    {
      Cursor(position - offset, position, stream.pos, EndOfStream)
    }

    /** Utf8LineReader(path, access, share): open at the start of the file and skip a byte-order mark. */
    constructor (contents: seq<bv8>, decode: seq<bv8> -> string)
      ensures Valid() && fresh(stream) && fresh(buffer)
      ensures stream.data == contents && this.decode == decode
      ensures State() == StartCursor(contents) && Line == 0
    {
      this.stream := new ByteStream(contents);
      this.buffer := new bv8[BufferSize](_ => 0);
      this.decode := decode;
      position := 0;
      offset := 0;
      bytesInBuffer := 0;
      EndOfStream := false;
      Line := 0;
      new;
      SkipBOM();
    }

    /** Utf8LineReader(path, bytePosition, access, share): open at a known byte offset, no BOM check. */
    constructor AtOffset(contents: seq<bv8>, bytePosition: nat, decode: seq<bv8> -> string)
      ensures Valid() && fresh(stream) && fresh(buffer)
      ensures stream.data == contents && this.decode == decode
      ensures State() == Cursor(bytePosition, bytePosition, bytePosition, false) && Line == 0
    {
      this.stream := new ByteStream(contents);
      this.buffer := new bv8[BufferSize](_ => 0);
      this.decode := decode;
      offset := 0;
      bytesInBuffer := 0;
      EndOfStream := false;
      Line := 0;
      new;
      var _ := stream.Seek(bytePosition);
      position := bytePosition;
    }

    /** Reload the buffer from the stream; false (and EndOfStream) when the read returns no byte. */
    method BufferNextPart() returns (more: bool)
      requires Valid() && offset == bytesInBuffer && !EndOfStream
      modifies this, stream, buffer
      ensures Valid() && Line == old(Line)
      ensures State() == Refill(stream.data, old(stream.pos))
      ensures more == !EndOfStream
    {
      offset := 0;
      bytesInBuffer := stream.Read(buffer);
      if bytesInBuffer == 0 {
        EndOfStream := true;
        return false;
      }
      return true;
    }

    /** Skip the UTF-8 byte-order mark EF BB BF if the first buffer load starts with it. */
    method SkipBOM()
      requires Valid() && position == 0 && offset == 0 && bytesInBuffer == 0 && !EndOfStream
      modifies this, stream, buffer
      ensures Valid() && Line == old(Line)
      ensures State() == StartCursor(stream.data)
    {
      var _ := BufferNextPart();
      if buffer[0] == 0xEF && buffer[1] == 0xBB && buffer[2] == 0xBF {
        assert |stream.data| >= 3;
        assert stream.data[..3] == BOM;
        position := 3;
        offset := 3;
      } else if |stream.data| >= 3 {
        assert stream.data[..3] != BOM by {
          assert buffer[..3] == stream.data[..3];
        }
      }
    }
  
    /** Seek(bytePosition): inside the buffered window only offset moves; otherwise the stream is
        repositioned and the buffer emptied. The line number becomes unknown, and a seek to 0 reloads
        the buffer and re-runs the byte-order mark check. A negative target makes the stream's seek
        throw, before anything changes. */
    method Seek(bytePosition: int) returns (ok: bool)
      requires Valid()
      modifies this, stream, buffer
      ensures Valid()
      ensures ok <==> bytePosition >= 0
      ensures !ok ==> State() == old(State()) && Line == old(Line)
      ensures ok ==> State() == SeekCursor(stream.data, old(State()), bytePosition) && Line == -1
    {
      var bufferBegin := position - offset;
      var bufferEnd := bufferBegin + bytesInBuffer;

      if bytePosition >= bufferBegin && bytePosition < bufferEnd {
        offset := offset + (bytePosition - position);
        assert 0 <= offset < bytesInBuffer;
      } else {
        ok := stream.Seek(bytePosition);
        if !ok {
          return;
        }
        offset := 0;
        bytesInBuffer := 0;
        EndOfStream := false;
      }
      ok := true;

      Line := -1;
      position := bytePosition;

      if position == 0 {
        var _ := stream.Seek(0);
        offset := 0;
        bytesInBuffer := 0;
        SkipBOM();
      }
    }

    /** The byte scan of ReadLine: offset and position advance together over the buffered bytes, up to
        and including the first LF; lbChars counts the trailing bytes to hold back from the decoder
        (1 for a CR seen last or a lone LF, 2 for CR LF). */
    method ScanBuffer() returns (lineBreakFound: bool, lbChars: int)
      requires Valid() && !EndOfStream
      modifies this`offset, this`position
      ensures Valid()
      ensures position - offset == old(position - offset)
      ensures var s := ScanChunk(stream.data, old(position), stream.pos);
        position == s.stop && lineBreakFound == s.found && lbChars == s.lbChars
    {
      var base := position - offset;
      var stop;
      stop, lineBreakFound, lbChars := ScanBytes(buffer, offset, bytesInBuffer, stream.data, base);
      position, offset := base + stop, stop;
    }

    /** ReadLine(): the next line, without its byte offset. */
    method ReadLineText() returns (line: Option<string>)
      requires Valid()
      modifies this, stream, buffer
      ensures Valid()
      ensures var step := NextLine(stream.data, old(State()));
        && State() == step.after
        && line == (if step.line.Some? then Some(decode(step.line.value)) else None)
      ensures Line == if old(EndOfStream) || old(Line) == -1 then old(Line) else old(Line) + 1
    {
      var bytePosition;
      line, bytePosition := ReadLine();
    }

    /** ReadLine(out long bytePosition): the next line decoded without its terminator, and the stream
        offset where it starts; None once the end of the stream was reached. */
    method ReadLine() returns (line: Option<string>, bytePosition: int)
      requires Valid()
      modifies this, stream, buffer
      ensures Valid()
      ensures var step := NextLine(stream.data, old(State()));
        && bytePosition == step.start
        && State() == step.after
        && line == (if step.line.Some? then Some(decode(step.line.value)) else None)
      ensures Line == if old(EndOfStream) || old(Line) == -1 then old(Line) else old(Line) + 1
    {
      bytePosition := position;

      if EndOfStream {
        return None, bytePosition;
      }

      ghost var g := Gather(stream.data, State());
      var bytes := GatherLine();
      assert State() == g.cursor;

      if !EndOfStream {
        // Refill now, so that the next call finds EndOfStream already set.
        if offset == bytesInBuffer {
          var _ := BufferNextPart();
        }
      }

      if Line != -1 {
        Line := Line + 1;
      }

      line := Some(decode(bytes));
    }

    /** The loop of ReadLine: collect the bytes of the line chunk by chunk until an LF is found or
        the stream is exhausted. */
    method GatherLine() returns (bytes: seq<bv8>)
      requires Valid() && !EndOfStream
      modifies this, stream, buffer
      ensures Valid() && Line == old(Line)
      ensures var g := Gather(stream.data, old(State()));
        bytes == g.fed && State() == g.cursor
    {
      bytes := [];
      ghost var data := stream.data;
      ghost var target := Gather(data, State());
      ghost var rest := target;

      while true
        invariant Valid() && !EndOfStream && Line == old(Line)
        invariant rest == Gather(data, State())
        invariant bytes + rest.fed == target.fed && rest.cursor == target.cursor
        decreases |data| - stream.pos
      {
        ghost var collected, at := bytes, State();
        var piece, done := NextChunk();
        bytes := bytes + piece;
        if done {
          return;
        }
        GatherResumes(data, at, collected, piece, State());
        rest := Gather(data, State());
      }
    }

    /** One pass of ReadLine's outer loop: scan the buffer, hand the bytes before the terminator to
        the decoder, and reload the buffer when no LF was found; done when the line is complete. */
    method NextChunk() returns (piece: seq<bv8>, done: bool)
      requires Valid() && !EndOfStream
      modifies this, stream, buffer
      ensures Valid() && Line == old(Line)
      ensures ChunkStep(stream.data, old(State()), piece, done, State())
      ensures done ==> Gather(stream.data, old(State())) == Gathered(piece, State())
      ensures !done ==> !EndOfStream && stream.pos <= |stream.data| && stream.pos > old(stream.pos)
      ensures !done ==> var rest := Gather(stream.data, State());
        Gather(stream.data, old(State())) == Gathered(piece + rest.fed, rest.cursor)
    {
      var start := offset;
      ghost var before := State();
      var lineBreakFound, lbChars := ScanBuffer();
      ChunkInBuffer(before, start, lbChars);
      piece := buffer[start .. offset - lbChars];

      if lineBreakFound {
        done := true;
      } else {
        var more := BufferNextPart();
        done := !more;
      }
      GatherByChunks(stream.data, before, piece, done, State());
    }

    /** After a scan from `before`, the buffered bytes from `start` up to the held-back terminator
        bytes are exactly the chunk bytes the specification hands to the decoder. */
    lemma ChunkInBuffer(before: Cursor, start: int, lbChars: int)
      requires Valid() && WellFormed(stream.data, before)
      requires before.base == position - offset && before.end == stream.pos
      requires start == before.pos - before.base
      requires var s := ScanChunk(stream.data, before.pos, before.end);
        position == s.stop && lbChars == s.lbChars
      ensures 0 <= start <= offset - lbChars <= offset
      ensures buffer[start .. offset - lbChars] == ChunkBytes(stream.data, before)
    {
      var s := ScanChunk(stream.data, before.pos, before.end);
      if before.pos < before.end {
        assert forall i :: start <= i < offset - lbChars ==>
          buffer[i] == stream.data[before.base + i];
      }
    }
  }
}
