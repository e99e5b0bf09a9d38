/**
 * The upload handler's reading of the Content-Range header:
 * `content_range.split(" ")[1].split("/")` gives the byte range and the file
 * size, and the byte range is split at "-" into two integers. Any failure of
 * these steps (a missing word, the wrong number of pieces, a piece that is not
 * a number) is an exception in the handler. The file size stays text.
 */
module RangeHeader {
  import opened Wrappers
  import opened Text
  import opened ChunkGeometry

  datatype ContentRange = ContentRange(start: nat, end: nat, fileSize: string)

  function Parse(header: string): Option<ContentRange>
  {
    var words := Split(header, ' ');
    if |words| < 2 then None
    else
      var halves := Split(words[1], '/');
      if |halves| != 2 then None
      else
        var bounds := Split(halves[0], '-');
        if |bounds| != 2 then None
        else
          match (ParseInt(bounds[0]), ParseInt(bounds[1]))
          case (Some(s), Some(e)) =>
            Some(ContentRange(s, e, halves[1]))
          case _ => None
  }

  /**
   * `unit S-E/N` parses to the values of the digit strings S and E and the text
   * N, whatever the unit word says; leading zeros are accepted.
   */
  lemma ParseWellFormed(unit: string, s: string, e: string, n: string)
    requires ' ' !in unit
    requires |s| > 0 && AllDigits(s) && |e| > 0 && AllDigits(e)
    requires ' ' !in n && '/' !in n
    ensures Parse(unit + " " + s + "-" + e + "/" + n)
         == Some(ContentRange(DigitsValue(s), DigitsValue(e), n))
  {
    assert ' ' !in s && ' ' !in e && '/' !in s && '/' !in e && '-' !in s && '-' !in e by {
      forall i | 0 <= i < |s| ensures IsDigit(s[i]) { }
      forall i | 0 <= i < |e| ensures IsDigit(e[i]) { }
    }
    var range := s + "-" + e;
    var tail := range + "/" + n;
    assert unit + " " + s + "-" + e + "/" + n == unit + [' '] + tail;
    SplitPair(unit, tail, ' ');
    assert range + "/" + n == range + ['/'] + n;
    SplitPair(range, n, '/');
    assert s + "-" + e == s + ['-'] + e;
    SplitPair(s, e, '-');
  }

  /** A header value without any space is rejected before anything is stored. */
  lemma ParseNeedsSpace(header: string)
    requires ' ' !in header
    ensures Parse(header) == None
  {
    SplitNoSep(header, ' ');
  }

  /** A header that is read has a space, and its size field has no `/`. */
  lemma ParseFields(header: string)
    requires Parse(header).Some?
    ensures ' ' in header
    ensures '/' !in Parse(header).value.fileSize
  {
    var words := Split(header, ' ');
    SplitPiecesFree(words[1], '/');
    if ' ' !in header {
      ParseNeedsSpace(header);
    }
  }

  /**
   * The server reads back what the page sends for a chunk: the first byte, the
   * inclusive last byte, and the file size as text.
   */
  lemma ParseChunkHeader(start: nat, end: nat, size: nat)
    requires start < end
    ensures Parse(ContentRangeValue(start, end, size))
         == Some(ContentRange(start, end - 1, IntToString(size)))
  {
    ParseNatToString(start);
    ParseNatToString(end - 1);
    var n := IntToString(size);
    IntToStringShape(size);
    assert ' ' !in n && '/' !in n by {
      forall i | 0 <= i < |n| ensures IsDigit(n[i]) { }
    }
    ParseWellFormed("bytes", IntToString(start), IntToString(end - 1), n);
    assert "bytes" + " " == "bytes ";
    assert DigitsValue(IntToString(start)) == start;
    assert DigitsValue(IntToString(end - 1)) == end - 1;
  }

  /**
   * For chunk `i` of a file of `size` bytes the header parses, and its last-byte
   * field is below the size and spans exactly the chunk's length.
   */
  lemma ChunkHeaderInFile(i: nat, size: nat)
    requires i < TotalChunks(size)
    ensures var r := Parse(ContentRangeValue(ChunkStart(i), ChunkEnd(i, size), size));
      && r.Some?
      && r.value.start == ChunkStart(i)
      && r.value.start <= r.value.end < size
      && r.value.end - r.value.start + 1 == ChunkEnd(i, size) - ChunkStart(i)
  {
    ChunkBounds(i, size);
    ParseChunkHeader(ChunkStart(i), ChunkEnd(i, size), size);
  }

}
