/**
 * How the upload page cuts a dropped file into chunks and labels each chunk
 * with a Content-Range value (section 14.4 of RFC 9110, last byte inclusive).
 * JavaScript's floating-point `Math.ceil(a / b)` is taken as exact integer
 * ceiling division.
 */
module ChunkGeometry {
  import opened Bytes
  import opened Text

  /** Two MiB per chunk. */
  const CHUNK_SIZE: nat := 2 * 1024 * 1024

  /** The least integer `q` with `a <= b * q`, for a positive divisor. */
  function CeilDiv(a: int, b: int): (q: int)
    requires b > 0
    ensures b * (q - 1) < a <= b * q
  {
    -((-a) / b)
  }

  /** Multiplying by a positive factor keeps the order of integers. */
  lemma MulMonotone(b: int, x: int, y: int)
    requires b > 0
    ensures x < y <==> b * x < b * y
    ensures x <= y <==> b * x <= b * y
  {
    if x < y {
      assert b * y - b * x == b * (y - x);
    } else {
      assert b * x - b * y == b * (x - y);
    }
  }

  function Min(a: int, b: int): int { if a <= b then a else b }

  /** `Math.ceil(file.size / CHUNK_SIZE)`: the fewest chunks that hold `size` bytes. */
  function TotalChunks(size: nat): (n: nat)
    ensures (n - 1) * CHUNK_SIZE < size <= n * CHUNK_SIZE
    ensures n == 0 <==> size == 0
  {
    CeilDiv(size, CHUNK_SIZE)
  }

  /** First byte offset of chunk `i`. */
  function ChunkStart(i: nat): nat
  {
    i * CHUNK_SIZE
  }

  /** Offset one past the last byte of chunk `i`, clipped to the file size. */
  function ChunkEnd(i: nat, size: nat): nat
  {
    Min((i + 1) * CHUNK_SIZE, size)
  }

  /** Every chunk is non-empty, at most CHUNK_SIZE long and inside the file. */
  lemma ChunkBounds(i: nat, size: nat)
    requires i < TotalChunks(size)
    ensures ChunkStart(i) < ChunkEnd(i, size) <= size
    ensures ChunkEnd(i, size) - ChunkStart(i) <= CHUNK_SIZE
  {
    var n := TotalChunks(size);
    assert i * CHUNK_SIZE <= (n - 1) * CHUNK_SIZE;
  }

  /** Chunk 0 starts the file; each chunk ends where the next begins; the last ends the file. */
  lemma ChunksContiguous(i: nat, size: nat)
    requires i < TotalChunks(size)
    ensures i == 0 ==> ChunkStart(i) == 0
    ensures i + 1 < TotalChunks(size) ==> ChunkEnd(i, size) == ChunkStart(i + 1)
    ensures i + 1 == TotalChunks(size) ==> ChunkEnd(i, size) == size
  {
    var n := TotalChunks(size);
    if i + 1 < n {
      assert (i + 1) * CHUNK_SIZE <= (n - 1) * CHUNK_SIZE;
    }
  }

  /** Every chunk but the last is exactly CHUNK_SIZE long. */
  lemma InnerChunksFull(i: nat, size: nat)
    requires i + 1 < TotalChunks(size)
    ensures ChunkEnd(i, size) - ChunkStart(i) == CHUNK_SIZE
  {
    ChunksContiguous(i, size);
  }

  /** `file.slice(start, end)` for chunk `i`. */
  function Chunk(file: seq<byte>, i: nat): (c: seq<byte>)
    requires i < TotalChunks(|file|)
    ensures 0 < |c| <= CHUNK_SIZE
  {
    ChunkBounds(i, |file|);
    file[ChunkStart(i)..ChunkEnd(i, |file|)]
  }

  /** The chunks of `file` in index order. */
  function Chunks(file: seq<byte>): (cs: seq<seq<byte>>)
    ensures |cs| == TotalChunks(|file|)
  {
    seq(TotalChunks(|file|), i requires 0 <= i < TotalChunks(|file|) => Chunk(file, i))
  }

  /** The first `k` chunks, concatenated, are the first `min(k * CHUNK_SIZE, size)` bytes. */
  lemma {:induction false} ChunksPrefix(file: seq<byte>, k: nat)
    requires k <= TotalChunks(|file|)
    ensures Flatten(Chunks(file)[..k]) == file[..Min(k * CHUNK_SIZE, |file|)]
  {
    if k > 0 {
      var cs := Chunks(file);
      ChunksPrefix(file, k - 1);
      ChunksContiguous(k - 1, |file|);
      ChunkBounds(k - 1, |file|);
      assert cs[..k] == cs[..k - 1] + [cs[k - 1]];
      FlattenSnoc(cs[..k - 1], cs[k - 1]);
      assert Min((k - 1) * CHUNK_SIZE, |file|) == ChunkStart(k - 1);
      assert Min(k * CHUNK_SIZE, |file|) == ChunkEnd(k - 1, |file|);
      assert file[..ChunkEnd(k - 1, |file|)]
          == file[..ChunkStart(k - 1)] + file[ChunkStart(k - 1)..ChunkEnd(k - 1, |file|)];
    }
  }

  /** The chunks cover the file exactly: concatenated in index order they give it back. */
  lemma ChunksReassemble(file: seq<byte>)
    ensures Flatten(Chunks(file)) == file
  {
    var n := TotalChunks(|file|);
    ChunksPrefix(file, n);
    assert Chunks(file)[..n] == Chunks(file);
  }

  /** The chunks before the last one, followed by the last one, give back the file. */
  lemma ChunksThenLast(file: seq<byte>)
    requires |file| > 0
    ensures Flatten(Chunks(file)[..TotalChunks(|file|) - 1]) + Chunk(file, TotalChunks(|file|) - 1) == file
  {
    var n := TotalChunks(|file|);
    var cs := Chunks(file);
    assert cs == cs[..n - 1] + [cs[n - 1]];
    FlattenSnoc(cs[..n - 1], cs[n - 1]);
    ChunksReassemble(file);
  }

  /** The Content-Range header value `bytes start-(end-1)/size`. */
  function ContentRangeValue(start: int, end: int, size: int): string
  {
    "bytes " + IntToString(start) + "-" + IntToString(end - 1) + "/" + IntToString(size)
  }

}
