/**
 * Pure specification of the positional UTF-8 line reader (Szotar's Utf8LineReader).
 *
 * The reader's state is abstracted as a `Cursor` over the immutable file contents `data`:
 *   base  - stream offset of buffer[0]                      (position - offset)
 *   pos   - stream offset of the next unread byte           (position)
 *   end   - stream offset just past the buffered bytes      (position - offset + bytesInBuffer)
 *   eos   - the EndOfStream flag
 * The buffer is refilled in reads of at most 1024 bytes; a line is scanned chunk by chunk.
 */
module LineSpec {
  import opened Wrappers

  const BufferSize: nat := 1024
  const CR: bv8 := 0x0D
  const LF: bv8 := 0x0A

  /** The UTF-8 signature (byte-order mark) EF BB BF, section 6 of RFC 3629. */
  const BOM: seq<bv8> := [0xEF, 0xBB, 0xBF]

  datatype Cursor = Cursor(base: nat, pos: nat, end: nat, eos: bool)

  /** Result of one ReadLine(out long): the bytes handed to the decoder (None once at end of stream),
      the offset reported through the out parameter, and the cursor afterwards. */
  datatype LineStep = LineStep(line: Option<seq<bv8>>, start: nat, after: Cursor)

  /** Bytes one stream read hands back when the stream is at `at`: all that remain, at most a buffer. */
  function ReadSize(data: seq<bv8>, at: nat): (n: nat)
    ensures n <= BufferSize
    ensures n == 0 <==> at >= |data|
    ensures n > 0 ==> at + n <= |data|
    ensures at + n < |data| ==> n == BufferSize
  {
    if at < |data| then Min(BufferSize, |data| - at) else 0
  }

  /** The reader invariant: 0 <= offset <= bytesInBuffer <= 1024, buffered bytes lie inside the file,
      and end of stream means an empty buffer at (or past) the end of the file. */
  ghost predicate WellFormed(data: seq<bv8>, c: Cursor)
  {
    && c.base <= c.pos <= c.end
    && c.end - c.base <= BufferSize
    && (c.base < c.end ==> c.end <= |data|)
    && (c.eos ==> c.base == c.pos == c.end && c.end >= |data|)
  }

  /** The cursor after a buffer refill issued with the stream at `at` (offset == bytesInBuffer). */
  function Refill(data: seq<bv8>, at: nat): (r: Cursor)
    ensures WellFormed(data, r)
    ensures r.base == r.pos == at && r.end == at + ReadSize(data, at)
    ensures r.eos <==> at >= |data|
  {
    var n := ReadSize(data, at);
    Cursor(at, at, at + n, n == 0)
  }

  /** The first LF in data[lo..hi], or `hi` when there is none. */
  function FindLF(data: seq<bv8>, lo: nat, hi: nat): (j: nat)
    requires lo <= hi && (lo == hi || hi <= |data|)
    ensures lo <= j <= hi
    ensures j < hi ==> data[j] == LF
    ensures forall k :: lo <= k < j ==> data[k] != LF
    decreases hi - lo
  {
    if lo == hi then hi
    else if data[lo] == LF then lo
    else FindLF(data, lo + 1, hi)
  }

  /** FindLF is determined by its contract: the first LF, or `hi`. */
  lemma FindLFIsFirst(data: seq<bv8>, lo: nat, hi: nat, j: nat)
    requires lo <= j <= hi && (lo == hi || hi <= |data|)
    requires j < hi ==> data[j] == LF
    requires forall k :: lo <= k < j ==> data[k] != LF
    ensures FindLF(data, lo, hi) == j
  {
  }

  /** How one pass of the byte scan over data[start..end] ends: the position reached, whether an LF
      was found, and how many trailing bytes are held back from the decoder (lbChars). */
  datatype Scan = Scan(stop: nat, found: bool, lbChars: nat)

  function ScanChunk(data: seq<bv8>, start: nat, end: nat): (s: Scan)
    requires start <= end && (start == end || end <= |data|)
    ensures start + s.lbChars <= s.stop <= end
    ensures s.lbChars <= 2
    ensures s.found ==> s.lbChars >= 1 && data[s.stop - 1] == LF
    ensures s.found <==> exists k :: start <= k < end && data[k] == LF
    ensures !s.found ==> s.stop == end
    ensures forall k :: start <= k < s.stop - 1 ==> data[k] != LF
    ensures s.lbChars == 2 <==> s.found && s.stop - 2 >= start && data[s.stop - 2] == CR
    ensures !s.found ==> (s.lbChars == 1 <==> end > start && data[end - 1] == CR)
  {
    var j := FindLF(data, start, end);
    if j < end then
      Scan(j + 1, true, if j > start && data[j - 1] == CR then 2 else 1)
    else
      Scan(end, false, if end > start && data[end - 1] == CR then 1 else 0)
  }

  /** A byte scan that stops after the first LF, or at `end` without one, holding back the
      terminator bytes as ScanChunk does, has ScanChunk's outcome. */
  lemma ScanOutcome(data: seq<bv8>, start: nat, end: nat, stop: nat, found: bool, lbChars: int)
    requires start <= stop <= end && (start == end || end <= |data|)
    requires found ==> stop > start && data[stop - 1] == LF
    requires !found ==> stop == end
    requires forall k :: start <= k < stop - 1 ==> data[k] != LF
    requires !found && stop > start ==> data[stop - 1] != LF
    requires found ==> lbChars == if stop - 1 > start && data[stop - 2] == CR then 2 else 1
    requires !found ==> lbChars == if stop > start && data[stop - 1] == CR then 1 else 0
    ensures ScanChunk(data, start, end) == Scan(stop, found, lbChars)
  {
    if found {
      FindLFIsFirst(data, start, end, stop - 1);
    } else {
      FindLFIsFirst(data, start, end, end);
    }
  }

  /** The bytes of one line handed to the decoder, and where the scan stopped. */
  datatype Gathered = Gathered(fed: seq<bv8>, cursor: Cursor)

  /** The `while (true)` loop of ReadLine: scan the buffered chunk, hand its bytes (minus the held-back
      terminator bytes) to the decoder, and refill until an LF is found or the stream is exhausted. */
  function Gather(data: seq<bv8>, c: Cursor): (g: Gathered)
    requires WellFormed(data, c) && !c.eos
    ensures WellFormed(data, g.cursor)
    ensures c.pos <= g.cursor.pos
    ensures |g.fed| <= g.cursor.pos - c.pos
    ensures !g.cursor.eos ==> g.cursor.pos > c.pos
    decreases if c.end <= |data| then |data| - c.end else 0
  {
    var s := ScanChunk(data, c.pos, c.end);
    var piece := ChunkBytes(data, c);
    if s.found then
      Gathered(piece, Cursor(c.base, s.stop, c.end, false))
    else
      var r := Refill(data, c.end);
      if r.eos then Gathered(piece, r)
      else
        var g := Gather(data, r);
        Gathered(piece + g.fed, g.cursor)
  }

  /** One pass of Gather from c: the chunk bytes are handed to the decoder, then either the LF ends
      the line (done) or the buffer is refilled from the end of the chunk (done if nothing came). */
  ghost predicate ChunkStep(data: seq<bv8>, c: Cursor, piece: seq<bv8>, done: bool, next: Cursor)
    requires WellFormed(data, c) && !c.eos
  {
    var s := ScanChunk(data, c.pos, c.end);
    && piece == ChunkBytes(data, c)
    && if s.found then done && next == Cursor(c.base, s.stop, c.end, false)
       else next == Refill(data, c.end) && done == next.eos
  }

  /** Gather is the chunk steps strung together. */
  lemma GatherByChunks(data: seq<bv8>, c: Cursor, piece: seq<bv8>, done: bool, next: Cursor)
    requires WellFormed(data, c) && !c.eos && ChunkStep(data, c, piece, done, next)
    ensures WellFormed(data, next)
    ensures done ==> Gather(data, c) == Gathered(piece, next)
    ensures !done ==> !next.eos && next.end <= |data| && next.end > c.end
    ensures !done ==>
      Gather(data, c) == Gathered(piece + Gather(data, next).fed, Gather(data, next).cursor)
  {
  }

  /** The step of ReadLine's loop: a chunk that does not end the line moves its bytes from the rest
      of the line to the bytes collected so far; together they stay the same, as does where the
      line ends. */
  lemma GatherResumes(data: seq<bv8>, c: Cursor, collected: seq<bv8>, piece: seq<bv8>, next: Cursor)
    requires WellFormed(data, c) && !c.eos && ChunkStep(data, c, piece, false, next)
    ensures WellFormed(data, next) && !next.eos
    ensures collected + Gather(data, c).fed == (collected + piece) + Gather(data, next).fed
    ensures Gather(data, c).cursor == Gather(data, next).cursor
  {
    GatherByChunks(data, c, piece, false, next);
    var tail := Gather(data, next).fed;
    assert (collected + piece) + tail == collected + (piece + tail);
  }

  /** One call of ReadLine(out long): None once at end of stream, otherwise the bytes of the next line
      handed to the decoder; afterwards the buffer is refilled when the line used it up. */
  function NextLine(data: seq<bv8>, c: Cursor): (r: LineStep)
    requires WellFormed(data, c)
    ensures WellFormed(data, r.after)
    ensures r.start == c.pos
    ensures r.line.None? <==> c.eos
    ensures c.eos ==> r.after == c
    ensures !r.after.eos ==> r.after.pos < r.after.end
    ensures r.line.Some? ==> c.pos <= r.after.pos && |r.line.value| <= r.after.pos - c.pos
  {
    if c.eos then LineStep(None, c.pos, c)
    else
      var g := Gather(data, c);
      var k := g.cursor;
      if !k.eos && k.pos == k.end then LineStep(Some(g.fed), c.pos, Refill(data, k.end))
      else LineStep(Some(g.fed), c.pos, k)
  }

  /** The start-of-file constructor: one buffer load, then the byte-order mark check. */
  function StartCursor(data: seq<bv8>): (c: Cursor)
    ensures WellFormed(data, c)
    ensures c.base == 0 && c.end == ReadSize(data, 0) && (c.eos <==> |data| == 0)
    ensures c.pos == 3 <==> |data| >= 3 && data[..3] == BOM
    ensures c.pos != 3 ==> c.pos == 0
  {
    var r := Refill(data, 0);
    if |data| >= 3 && data[..3] == BOM then Cursor(0, 3, r.end, false) else r
  }

  /** Seek(target): move inside the buffered window when it covers the target, otherwise drop the
      buffer and reposition the stream; a seek to 0 re-runs the start-of-file BOM check. */
  function SeekCursor(data: seq<bv8>, c: Cursor, target: nat): (r: Cursor)
    requires WellFormed(data, c)
    ensures WellFormed(data, r)
    ensures target == 0 ==> r == StartCursor(data)
    ensures target != 0 ==> r.pos == target
    ensures target != 0 && c.base <= target < c.end ==>
      r.base == c.base && r.end == c.end && !r.eos && r.pos - r.base < r.end - r.base
    ensures target != 0 && !(c.base <= target < c.end) ==> r == Cursor(target, target, target, false)
  {
    if target == 0 then StartCursor(data)
    else if c.base <= target < c.end then Cursor(c.base, target, c.end, c.eos)
    else Cursor(target, target, target, false)
  }

  /** The stream offset where the line starting at `pos` ends: its LF, or the end of the data. */
  function LineEnd(data: seq<bv8>, pos: nat): (e: nat)
    requires pos <= |data|
    ensures pos <= e <= |data|
  {
    FindLF(data, pos, |data|)
  }

  /** `k` is a stream offset at which some buffer load of the scan that starts with the buffer
      ending at `end` ends: end, end + 1024, ..., and the end of the data. */
  ghost predicate IsSeam(data: seq<bv8>, end: nat, k: nat)
    decreases if end < |data| then |data| - end else 0
  {
    k == end || (end < |data| && IsSeam(data, end + ReadSize(data, end), k))
  }

  lemma {:induction false} SeamsFollowEnd(data: seq<bv8>, end: nat, k: nat)
    requires IsSeam(data, end, k)
    ensures end <= k
    decreases if end < |data| then |data| - end else 0
  {
    if k != end {
      SeamsFollowEnd(data, end + ReadSize(data, end), k);
    }
  }

  lemma {:induction false} EndOfDataIsSeam(data: seq<bv8>, end: nat)
    requires end <= |data|
    ensures IsSeam(data, end, |data|)
    decreases |data| - end
  {
    if end < |data| {
      EndOfDataIsSeam(data, end + ReadSize(data, end));
    }
  }

  /** Byte i of a line whose LF (if found) is at e is never decoded: it is a CR that was either the
      last byte of a buffer load (held back as a possible CR LF and then forgotten) or the CR of CR LF. */
  ghost predicate Dropped(data: seq<bv8>, i: nat, e: nat, found: bool, end: nat)
    requires i < |data|
  {
    data[i] == CR && (IsSeam(data, end, i + 1) || (found && i + 1 == e))
  }

  /** data[lo..hi] without its dropped bytes. */
  ghost function Strip(data: seq<bv8>, lo: nat, hi: nat, e: nat, found: bool, end: nat): seq<bv8>
    requires lo <= hi <= |data|
    decreases hi - lo
  {
    if lo == hi then []
    else (if Dropped(data, lo, e, found, end) then [] else [data[lo]]) + Strip(data, lo + 1, hi, e, found, end)
  }

  lemma {:induction false} StripSplit(data: seq<bv8>, lo: nat, mid: nat, hi: nat, e: nat, found: bool, end: nat)
    requires lo <= mid <= hi <= |data|
    ensures Strip(data, lo, hi, e, found, end) == Strip(data, lo, mid, e, found, end) + Strip(data, mid, hi, e, found, end)
    decreases mid - lo
  {
    if lo < mid {
      StripSplit(data, lo + 1, mid, hi, e, found, end);
    }
  }

  lemma {:induction false} StripKeepsAll(data: seq<bv8>, lo: nat, hi: nat, e: nat, found: bool, end: nat)
    requires lo <= hi <= |data|
    requires forall i :: lo <= i < hi ==> !Dropped(data, i, e, found, end)
    ensures Strip(data, lo, hi, e, found, end) == data[lo..hi]
    decreases hi - lo
  {
    if lo < hi {
      StripKeepsAll(data, lo + 1, hi, e, found, end);
    }
  }

  lemma {:induction false} StripCongruent(data: seq<bv8>, lo: nat, hi: nat, e1: nat, f1: bool, s1: nat, e2: nat, f2: bool, s2: nat)
    requires lo <= hi <= |data|
    requires forall i :: lo <= i < hi ==> (Dropped(data, i, e1, f1, s1) <==> Dropped(data, i, e2, f2, s2))
    ensures Strip(data, lo, hi, e1, f1, s1) == Strip(data, lo, hi, e2, f2, s2)
    decreases hi - lo
  {
    if lo < hi {
      StripCongruent(data, lo + 1, hi, e1, f1, s1, e2, f2, s2);
      var d1, d2 := Dropped(data, lo, e1, f1, s1), Dropped(data, lo, e2, f2, s2);
      assert d1 == d2;
    }
  }

  /** When only the last byte can be dropped, and it is dropped exactly when it is a CR. */
  lemma StripLast(data: seq<bv8>, lo: nat, hi: nat, e: nat, found: bool, end: nat)
    requires lo < hi <= |data|
    requires forall i :: lo <= i < hi - 1 ==> !Dropped(data, i, e, found, end)
    requires Dropped(data, hi - 1, e, found, end) <==> data[hi - 1] == CR
    ensures Strip(data, lo, hi, e, found, end) == data[lo .. hi - (if data[hi - 1] == CR then 1 else 0)]
  {
    assert Strip(data, lo, hi - 1, e, found, end) == data[lo .. hi - 1] by {
      StripKeepsAll(data, lo, hi - 1, e, found, end);
    }
    if data[hi - 1] == CR {
      assert Strip(data, hi - 1, hi, e, found, end) == [] by {
        StripOne(data, hi - 1, e, found, end);
      }
      StripLastDropped(data, lo, hi, e, found, end);
    } else {
      assert Strip(data, hi - 1, hi, e, found, end) == [data[hi - 1]] by {
        StripOne(data, hi - 1, e, found, end);
      }
      StripLastKept(data, lo, hi, e, found, end);
    }
  }

  lemma StripLastDropped(data: seq<bv8>, lo: nat, hi: nat, e: nat, found: bool, end: nat)
    requires lo < hi <= |data|
    requires Strip(data, lo, hi - 1, e, found, end) == data[lo .. hi - 1]
    requires Strip(data, hi - 1, hi, e, found, end) == []
    ensures Strip(data, lo, hi, e, found, end) == data[lo .. hi - 1]
  {
    StripSplit(data, lo, hi - 1, hi, e, found, end);
    assert data[lo .. hi - 1] + [] == data[lo .. hi - 1];
  }

  lemma StripLastKept(data: seq<bv8>, lo: nat, hi: nat, e: nat, found: bool, end: nat)
    requires lo < hi <= |data|
    requires Strip(data, lo, hi - 1, e, found, end) == data[lo .. hi - 1]
    requires Strip(data, hi - 1, hi, e, found, end) == [data[hi - 1]]
    ensures Strip(data, lo, hi, e, found, end) == data[lo .. hi]
  {
    StripSplit(data, lo, hi - 1, hi, e, found, end);
    SliceThenLast(data, lo, hi);
  }

  lemma SliceThenLast(data: seq<bv8>, lo: nat, hi: nat)
    requires lo < hi <= |data|
    ensures data[lo .. hi - 1] + [data[hi - 1]] == data[lo .. hi]
  {
  }

  lemma StripOne(data: seq<bv8>, i: nat, e: nat, found: bool, end: nat)
    requires i < |data|
    ensures Strip(data, i, i + 1, e, found, end) == if Dropped(data, i, e, found, end) then [] else [data[i]]
  {
    assert Strip(data, i + 1, i + 1, e, found, end) == [];
  }

  /** Within the buffered chunk [pos, end) no byte but the last can be a seam CR. */
  lemma ChunkPiece(data: seq<bv8>, c: Cursor, e: nat, found: bool, hi: nat)
    requires WellFormed(data, c) && c.pos < hi <= c.end && hi <= e && hi <= |data|
    requires hi == c.end || (found && hi == e)
    ensures Strip(data, c.pos, hi, e, found, c.end) == data[c.pos .. hi - (if data[hi - 1] == CR then 1 else 0)]
  {
    forall i | c.pos <= i < hi - 1
      ensures !Dropped(data, i, e, found, c.end)
    {
      if IsSeam(data, c.end, i + 1) {
        SeamsFollowEnd(data, c.end, i + 1);
      }
    }
    StripLast(data, c.pos, hi, e, found, c.end);
  }

  /** The bytes Gather hands to the decoder are the line's bytes up to its LF (or the end of the data)
      without the dropped CRs, and the scan stops just past the LF. */
  lemma {:induction false} GatherStrips(data: seq<bv8>, c: Cursor)
    requires WellFormed(data, c) && !c.eos && c.pos <= |data|
    ensures var e := LineEnd(data, c.pos);
      var g := Gather(data, c);
      && g.fed == Strip(data, c.pos, e, e, e < |data|, c.end)
      && g.cursor.pos == (if e < |data| then e + 1 else e)
      && g.cursor.eos == (e == |data|)
    decreases if c.end <= |data| then |data| - c.end else 0
  {
    var s := ScanChunk(data, c.pos, c.end);
    if s.found {
      GatherLineBreakInChunk(data, c);
    } else if c.end >= |data| {
      GatherLastChunk(data, c);
    } else {
      var r := Refill(data, c.end);
      GatherStrips(data, r);
      GatherNextChunk(data, c);
    }
  }

  /** Case of GatherStrips: the LF is inside the buffered chunk. */
  lemma GatherLineBreakInChunk(data: seq<bv8>, c: Cursor)
    requires WellFormed(data, c) && !c.eos && c.pos <= |data|
    requires ScanChunk(data, c.pos, c.end).found
    ensures var e := LineEnd(data, c.pos);
      var g := Gather(data, c);
      && e < |data|
      && g.fed == Strip(data, c.pos, e, e, true, c.end)
      && g.cursor.pos == e + 1 && !g.cursor.eos
  {
    var s := ScanChunk(data, c.pos, c.end);
    var e := LineEnd(data, c.pos);
    FindLFIsFirst(data, c.pos, |data|, s.stop - 1);
    assert e == s.stop - 1;
    ChunkUpToLineBreak(data, c, e);
    assert Gather(data, c) == Gathered(ChunkBytes(data, c), Cursor(c.base, s.stop, c.end, false));
  }

  /** When the chunk holds the line's LF at e, the chunk bytes handed over are the line without its
      dropped CRs. */
  lemma ChunkUpToLineBreak(data: seq<bv8>, c: Cursor, e: nat)
    requires WellFormed(data, c) && !c.eos && c.pos <= |data|
    requires ScanChunk(data, c.pos, c.end).found && e == ScanChunk(data, c.pos, c.end).stop - 1
    ensures ChunkBytes(data, c) == Strip(data, c.pos, e, e, true, c.end)
  {
    var s := ScanChunk(data, c.pos, c.end);
    assert ChunkBytes(data, c) == data[c.pos .. s.stop - s.lbChars];
    if c.pos < e {
      ChunkPiece(data, c, e, true, e);
    }
  }

  /** Case of GatherStrips: no LF in the chunk and nothing left to read. */
  lemma GatherLastChunk(data: seq<bv8>, c: Cursor)
    requires WellFormed(data, c) && !c.eos && c.pos <= |data|
    requires !ScanChunk(data, c.pos, c.end).found && c.end >= |data|
    ensures var e := LineEnd(data, c.pos);
      var g := Gather(data, c);
      && e == |data|
      && g.fed == Strip(data, c.pos, e, e, false, c.end)
      && g.cursor.pos == e && g.cursor.eos
  {
    var e := LineEnd(data, c.pos);
    FindLFIsFirst(data, c.pos, |data|, |data|);
    if c.pos < c.end {
      ChunkPiece(data, c, e, false, c.end);
    }
  }

  /** Case of GatherStrips: no LF in the chunk and the refill brings more bytes. */
  lemma GatherNextChunk(data: seq<bv8>, c: Cursor)
    requires WellFormed(data, c) && !c.eos && c.pos <= |data|
    requires !ScanChunk(data, c.pos, c.end).found && c.end < |data|
    requires var r := Refill(data, c.end); var e := LineEnd(data, c.end);
      var g := Gather(data, r);
      && g.fed == Strip(data, c.end, e, e, e < |data|, r.end)
      && g.cursor.pos == (if e < |data| then e + 1 else e)
      && g.cursor.eos == (e == |data|)
    ensures var e := LineEnd(data, c.pos);
      var g := Gather(data, c);
      && g.fed == Strip(data, c.pos, e, e, e < |data|, c.end)
      && g.cursor.pos == (if e < |data| then e + 1 else e)
      && g.cursor.eos == (e == |data|)
  {
    var r := Refill(data, c.end);
    var e := LineEnd(data, c.end);
    UnfoldNextChunk(data, c);
    ChunkThenRest(data, c, e, e < |data|);
  }

  /** One unfolding of Gather when the chunk has no LF and the refill brings more bytes. */
  lemma UnfoldNextChunk(data: seq<bv8>, c: Cursor)
    requires WellFormed(data, c) && !c.eos && c.pos <= |data|
    requires !ScanChunk(data, c.pos, c.end).found && c.end < |data|
    ensures var s := ScanChunk(data, c.pos, c.end);
      var g := Gather(data, Refill(data, c.end));
      && Gather(data, c) == Gathered(ChunkBytes(data, c) + g.fed, g.cursor)
      && LineEnd(data, c.pos) == LineEnd(data, c.end)
  {
    FindLFIsFirst(data, c.pos, |data|, LineEnd(data, c.end));
  }

  /** The bytes of the buffered chunk that one scan hands to the decoder. */
  function ChunkBytes(data: seq<bv8>, c: Cursor): (piece: seq<bv8>)
    requires WellFormed(data, c)
    ensures |piece| <= c.end - c.pos
  {
    var s := ScanChunk(data, c.pos, c.end);
    if c.pos < c.end then data[c.pos .. s.stop - s.lbChars] else []
  }

  lemma ChunkThenRest(data: seq<bv8>, c: Cursor, e: nat, found: bool)
    requires WellFormed(data, c) && !c.eos && c.pos <= |data|
    requires !ScanChunk(data, c.pos, c.end).found && c.end < |data| && c.end <= e <= |data|
    ensures ChunkBytes(data, c) + Strip(data, c.end, e, e, found, Refill(data, c.end).end)
      == Strip(data, c.pos, e, e, found, c.end)
  {
    SeamShift(data, c, Refill(data, c.end), e, found);
    StripSplit(data, c.pos, c.end, e, e, found, c.end);
    if c.pos < c.end {
      ChunkPiece(data, c, e, found, c.end);
    }
  }

  /** Past the end of the current chunk, the seams seen from it and from the next chunk agree. */
  lemma SeamShift(data: seq<bv8>, c: Cursor, r: Cursor, e: nat, found: bool)
    requires WellFormed(data, c) && c.end < |data| && r == Refill(data, c.end) && c.end <= e <= |data|
    ensures Strip(data, c.end, e, e, found, c.end) == Strip(data, c.end, e, e, found, r.end)
  {
    forall i | c.end <= i < e
      ensures Dropped(data, i, e, found, c.end) <==> Dropped(data, i, e, found, r.end)
    {
      assert IsSeam(data, c.end, i + 1) <==> IsSeam(data, r.end, i + 1);
    }
    StripCongruent(data, c.end, e, e, found, c.end, e, found, r.end);
  }

  /** ReadLine on a reader that is not at end of stream returns the line starting at its position:
      the bytes up to the next LF (or the end of the data) without the dropped CRs; the position moves
      past the LF, and end of stream is set exactly when no byte is left. */
  lemma NextLineReadsOneLine(data: seq<bv8>, c: Cursor)
    requires WellFormed(data, c) && !c.eos && c.pos <= |data|
    ensures var e := LineEnd(data, c.pos);
      var r := NextLine(data, c);
      && r.line == Some(Strip(data, c.pos, e, e, e < |data|, c.end))
      && r.after.pos == (if e < |data| then e + 1 else |data|)
      && (r.after.eos <==> r.after.pos == |data|)
  {
    GatherStrips(data, c);
  }

  /** A line with no CR byte is returned exactly as it stands before its LF, whatever the buffer
      boundaries: input with LF terminators only is split exactly at each LF. */
  lemma LineWithoutCR(data: seq<bv8>, c: Cursor)
    requires WellFormed(data, c) && !c.eos && c.pos <= |data|
    requires forall i :: c.pos <= i < LineEnd(data, c.pos) ==> data[i] != CR
    ensures NextLine(data, c).line == Some(data[c.pos .. LineEnd(data, c.pos)])
  {
    var e := LineEnd(data, c.pos);
    NextLineReadsOneLine(data, c);
    StripKeepsAll(data, c.pos, e, e, e < |data|, c.end);
  }

  /** A CR LF terminator is stripped as a unit, also when the CR and the LF arrive in different
      buffer loads. */
  lemma CrLfStripped(data: seq<bv8>, c: Cursor)
    requires WellFormed(data, c) && !c.eos && c.pos <= |data|
    requires var e := LineEnd(data, c.pos);
      c.pos < e < |data| && data[e - 1] == CR && forall i :: c.pos <= i < e - 1 ==> data[i] != CR
    ensures NextLine(data, c).line == Some(data[c.pos .. LineEnd(data, c.pos) - 1])
  {
    var e := LineEnd(data, c.pos);
    NextLineReadsOneLine(data, c);
    StripLast(data, c.pos, e, e, true, c.end);
  }

  /** When the whole line and its LF are already buffered, only a CR right before the LF is removed:
      every other CR stays in the line as ordinary content. */
  lemma LineInsideBuffer(data: seq<bv8>, c: Cursor)
    requires WellFormed(data, c) && !c.eos && c.pos <= |data|
    requires LineEnd(data, c.pos) < c.end
    ensures var e := LineEnd(data, c.pos);
      NextLine(data, c).line == Some(data[c.pos .. e - (if e > c.pos && data[e - 1] == CR then 1 else 0)])
  {
    var e := LineEnd(data, c.pos);
    assert e < |data|;
    var stripped := Strip(data, c.pos, e, e, true, c.end);
    assert NextLine(data, c).line == Some(stripped) by {
      NextLineReadsOneLine(data, c);
    }
    if c.pos < e {
      assert stripped == data[c.pos .. e - (if data[e - 1] == CR then 1 else 0)] by {
        ChunkPiece(data, c, e, true, e);
      }
    } else {
      assert stripped == [];
    }
  }

  /** A CR that is the last byte of the data is never decoded (the code drops it; it is not a line break). */
  lemma FinalCrDropped(data: seq<bv8>, c: Cursor)
    requires WellFormed(data, c) && !c.eos && c.pos < |data|
    requires LineEnd(data, c.pos) == |data| && data[|data| - 1] == CR
    requires forall i :: c.pos <= i < |data| - 1 ==> data[i] != CR
    ensures NextLine(data, c).line == Some(data[c.pos .. |data| - 1])
  {
    NextLineReadsOneLine(data, c);
    EndOfDataIsSeam(data, c.end);
    forall i | c.pos <= i < |data| - 1
      ensures !Dropped(data, i, |data|, false, c.end)
    {
    }
    StripLast(data, c.pos, |data|, |data|, false, c.end);
  }

  /** A reader at or past the end of the data (after a seek there) returns one empty line, then
      end of stream. */
  lemma ReadAtEndOfData(data: seq<bv8>, c: Cursor)
    requires WellFormed(data, c) && !c.eos && c.pos >= |data|
    ensures NextLine(data, c).line == Some([])
    ensures NextLine(data, c).after.eos
    ensures NextLine(data, NextLine(data, c).after).line == None
  {
    assert c.pos == c.end;
    assert ChunkBytes(data, c) == [];
  }

  /** The exception to ReadAtEndOfData: a seek to 0 reloads the buffer to check for a byte-order
      mark, and on an empty file that load finds nothing and sets end of stream, so the next read
      returns null at once. A seek to any other offset at or past the end leaves end of stream
      clear. */
  lemma SeekToStartOfEmptyFile(c: Cursor, target: nat)
    requires WellFormed([], c)
    ensures NextLine([], SeekCursor([], c, 0)).line == None
    ensures target != 0 ==> !SeekCursor([], c, target).eos
  {
  }

  /** Resumability: a line that holds no CR except, possibly, right before its terminator is read the
      same by every reader positioned at its start, whatever that reader has buffered. */
  lemma ResumeReadsSameLine(data: seq<bv8>, c1: Cursor, c2: Cursor)
    requires WellFormed(data, c1) && WellFormed(data, c2) && !c1.eos && !c2.eos
    requires c1.pos == c2.pos <= |data|
    requires forall i :: c1.pos <= i < LineEnd(data, c1.pos) - 1 ==> data[i] != CR
    ensures NextLine(data, c1).line == NextLine(data, c2).line
    ensures NextLine(data, c1).after.pos == NextLine(data, c2).after.pos
  {
    var e := LineEnd(data, c1.pos);
    var found := e < |data|;
    NextLineReadsOneLine(data, c1);
    NextLineReadsOneLine(data, c2);
    if !found {
      EndOfDataIsSeam(data, c1.end);
      EndOfDataIsSeam(data, c2.end);
    }
    SameDropped(data, c1.pos, e, found, c1.end, c2.end);
    StripCongruent(data, c1.pos, e, e, found, c1.end, e, found, c2.end);
  }

  /** In a line whose only possible CR is right before its terminator, both buffer layouts drop
      the same bytes. */
  lemma SameDropped(data: seq<bv8>, p: nat, e: nat, found: bool, end1: nat, end2: nat)
    requires p <= e <= |data| && (found <==> e < |data|)
    requires !found ==> IsSeam(data, end1, |data|) && IsSeam(data, end2, |data|)
    requires forall i :: p <= i < e - 1 ==> data[i] != CR
    ensures forall i :: p <= i < e ==> (Dropped(data, i, e, found, end1) <==> Dropped(data, i, e, found, end2))
  {
    forall i | p <= i < e
      ensures Dropped(data, i, e, found, end1) <==> Dropped(data, i, e, found, end2)
    {
      if i + 1 < e {
        assert data[i] != CR;
      }
    }
  }

  /** Seeking to a line start p > 0 and reading gives the line a reader opened at byte offset p reads. */
  lemma SeekThenReadLine(data: seq<bv8>, c: Cursor, p: nat)
    requires WellFormed(data, c) && 0 < p <= |data|
    requires forall i :: p <= i < LineEnd(data, p) - 1 ==> data[i] != CR
    ensures NextLine(data, SeekCursor(data, c, p)).line == NextLine(data, Cursor(p, p, p, false)).line
  {
    ResumeReadsSameLine(data, SeekCursor(data, c, p), Cursor(p, p, p, false));
  }

  /** Why SeekThenReadLine needs its CR condition. After a seek to p inside the buffered window,
      a CR that is the window's last byte sits at a load seam of the seeking reader and is dropped.
      A reader opened at p loads from p, and its first seam lies beyond that CR, so it keeps the
      CR. The two readers then return different lines for the same start p. */
  lemma ResumeAfterSeekCanDiffer(data: seq<bv8>, c: Cursor, p: nat)
    requires WellFormed(data, c) && !c.eos && c.base < p < c.end < |data|
    requires data[c.end - 1] == CR && data[c.end] != CR && LineEnd(data, p) > c.end
    ensures NextLine(data, SeekCursor(data, c, p)).line != NextLine(data, Cursor(p, p, p, false)).line
  {
    var s := SeekCursor(data, c, p);
    assert s == Cursor(c.base, p, c.end, false);
    var e := LineEnd(data, p);
    NextLineReadsOneLine(data, s);
    NextLineReadsOneLine(data, Cursor(p, p, p, false));
    StripsDifferAtSeamCr(data, c, p, e, e < |data|);
  }

  /** The line without the bytes the seeking reader drops differs from the line without the bytes
      the opened reader drops: they agree up to the CR that ends the window, and there one has the
      next byte and the other the CR. */
  lemma StripsDifferAtSeamCr(data: seq<bv8>, c: Cursor, p: nat, e: nat, found: bool)
    requires WellFormed(data, c) && c.base < p < c.end < e <= |data|
    requires data[c.end - 1] == CR && data[c.end] != CR
    ensures Strip(data, p, e, e, found, c.end) != Strip(data, p, e, e, found, p)
  {
    NoSeamBeforeReload(data, c, p);
    SamePrefixBeforeSeam(data, c, p, e, found);
    SeamCrRests(data, c, p, e, found);
    var k := c.end - 1;
    var prefix := Strip(data, p, k, e, found, c.end);
    var seekRest := Strip(data, k, e, e, found, c.end);
    var openRest := Strip(data, k, e, e, found, p);
    StripSplit(data, p, k, e, e, found, c.end);
    StripSplit(data, p, k, e, e, found, p);
    assert Strip(data, p, e, e, found, c.end) == prefix + seekRest;
    assert Strip(data, p, e, e, found, p) == prefix + openRest;
    assert seekRest[0] != openRest[0];
    assert (prefix + seekRest)[|prefix|] == seekRest[0];
    assert (prefix + openRest)[|prefix|] == openRest[0];
  }

  /** A reader opened at p inside a window that ends at c.end has no load seam in (p, c.end]: its
      first load already reaches past c.end. */
  lemma NoSeamBeforeReload(data: seq<bv8>, c: Cursor, p: nat)
    requires WellFormed(data, c) && c.base < p < c.end < |data|
    ensures forall j :: p < j <= c.end ==> !IsSeam(data, p, j)
  {
    assert p + ReadSize(data, p) > c.end;
    forall j | p < j <= c.end
      ensures !IsSeam(data, p, j)
    {
      if IsSeam(data, p, j) {
        SeamsFollowEnd(data, p + ReadSize(data, p), j);
      }
    }
  }

  /** Before the window's last byte, the seeking and the opened reader drop the same bytes. */
  lemma SamePrefixBeforeSeam(data: seq<bv8>, c: Cursor, p: nat, e: nat, found: bool)
    requires WellFormed(data, c) && c.base < p < c.end < e <= |data|
    requires forall j :: p < j <= c.end ==> !IsSeam(data, p, j)
    ensures Strip(data, p, c.end - 1, e, found, c.end) == Strip(data, p, c.end - 1, e, found, p)
  {
    forall i | p <= i < c.end - 1
      ensures !Dropped(data, i, e, found, c.end) && !Dropped(data, i, e, found, p)
    {
      if IsSeam(data, c.end, i + 1) {
        SeamsFollowEnd(data, c.end, i + 1);
      }
    }
    StripCongruent(data, p, c.end - 1, e, found, c.end, e, found, p);
  }

  /** At a CR that ends the window: the seeking reader drops it and goes on with the next byte, the
      opened reader keeps it. */
  lemma SeamCrRests(data: seq<bv8>, c: Cursor, p: nat, e: nat, found: bool)
    requires WellFormed(data, c) && c.base < p < c.end < e <= |data|
    requires data[c.end - 1] == CR && data[c.end] != CR
    requires forall j :: p < j <= c.end ==> !IsSeam(data, p, j)
    ensures Strip(data, c.end - 1, e, e, found, c.end) == [data[c.end]] + Strip(data, c.end + 1, e, e, found, c.end)
    ensures Strip(data, c.end - 1, e, e, found, p) == [CR] + Strip(data, c.end, e, e, found, p)
  {
    assert Dropped(data, c.end - 1, e, found, c.end);
    assert !Dropped(data, c.end - 1, e, found, p);
    assert !Dropped(data, c.end, e, found, c.end);
  }

  /** Input that ends in its line terminator yields no extra empty line: the call after the last line
      returns None. */
  lemma NoLineAfterFinalTerminator(data: seq<bv8>, c: Cursor)
    requires WellFormed(data, c) && !c.eos && c.pos < |data|
    requires LineEnd(data, c.pos) == |data| - 1
    ensures NextLine(data, c).line.Some?
    ensures NextLine(data, NextLine(data, c).after).line == None
  {
    NextLineReadsOneLine(data, c);
  }

  /** The example file EF BB BF 'h' 'i' CR LF 'b' 'y' 'e': "hi" at offset 3, "bye" at offset 7, then
      end of stream; seeking to 7 on a fresh reader or after the last line reads "bye" again. */
  lemma HiByeExample()
    ensures var data: seq<bv8> := [0xEF, 0xBB, 0xBF, 0x68, 0x69, 0x0D, 0x0A, 0x62, 0x79, 0x65];
      var r1 := NextLine(data, StartCursor(data));
      var r2 := NextLine(data, r1.after);
      var r3 := NextLine(data, r2.after);
      && r1 == LineStep(Some([0x68, 0x69]), 3, Cursor(0, 7, 10, false))
      && r2.line == Some([0x62, 0x79, 0x65]) && r2.start == 7
      && r3.line == None && r3.start == 10
      && NextLine(data, SeekCursor(data, StartCursor(data), 7)).line == Some([0x62, 0x79, 0x65])
      && NextLine(data, SeekCursor(data, r3.after, 7)).line == Some([0x62, 0x79, 0x65])
  {
    var data: seq<bv8> := [0xEF, 0xBB, 0xBF, 0x68, 0x69, 0x0D, 0x0A, 0x62, 0x79, 0x65];
    var c0 := StartCursor(data);
    assert data[..3] == BOM;
    assert c0 == Cursor(0, 3, 10, false);
    FindLFIsFirst(data, 3, 10, 6);
    LineInsideBuffer(data, c0);
    NextLineReadsOneLine(data, c0);
    var r1 := NextLine(data, c0);
    assert data[3..5] == [0x68, 0x69];
    assert r1 == LineStep(Some([0x68, 0x69]), 3, Cursor(0, 7, 10, false));
    FindLFIsFirst(data, 7, 10, 10);
    assert data[7..10] == [0x62, 0x79, 0x65];
    LineWithoutCR(data, r1.after);
    NextLineReadsOneLine(data, r1.after);
    var r2 := NextLine(data, r1.after);
    assert r2.after == Cursor(10, 10, 10, true);
    assert SeekCursor(data, c0, 7) == r1.after;
    LineWithoutCR(data, Cursor(7, 7, 7, false));
  }
}
