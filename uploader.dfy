/**
 * The upload page's drop handler: it cuts the first dropped file into chunks
 * and POSTs them one after another, in increasing index order, stopping at
 * the first 200 reply or the first exception. Here the POSTs go straight to
 * the `Store` of the upload service; `failing` names the chunk indices whose
 * POST throws in the network before reaching it.
 */
module Uploader {
  import opened Wrappers
  import opened Bytes
  import opened Text
  import opened ChunkGeometry
  import opened RangeHeader
  import opened PartStore

  /** A file dropped on the page: its name and its bytes. */
  datatype DroppedFile = DroppedFile(name: string, data: seq<byte>)

  /**
   * How one POST ends for the page: axios resolves with the reply when its
   * status is 2xx and throws otherwise, and also throws when the network fails.
   */
  datatype Delivery = Resolved(response: Response) | Thrown

  /** A resolved POST lets the upload go on to the next chunk unless its status is 200. */
  predicate Continues(d: Delivery)
  {
    d.Resolved? && Status(d.response) != 200
  }

  /** The POST the page builds for chunk `i`. */
  function ChunkRequest(file: DroppedFile, i: nat): (req: Request)
    requires i < TotalChunks(|file.data|)
    ensures req.filename == file.name
    ensures req.chunkIndex == i && req.totalChunks == TotalChunks(|file.data|)
    ensures |req.content| == ChunkEnd(i, |file.data|) - ChunkStart(i)
  {
    var size := |file.data|;
    ChunkBounds(i, size);
    Request(file.name, Chunk(file.data, i), i, TotalChunks(size),
            Some(ContentRangeValue(ChunkStart(i), ChunkEnd(i, size), size)))
  }

  /**
   * The service can read the Content-Range of every POST the page builds: it
   * gets the chunk's first byte, its inclusive last byte and the file size.
   */
  lemma ChunkRequestReadable(file: DroppedFile, i: nat)
    requires i < TotalChunks(|file.data|)
    ensures WellFormed(ChunkRequest(file, i))
    ensures Parse(ChunkRequest(file, i).contentRange.value)
         == Some(ContentRange(ChunkStart(i), ChunkEnd(i, |file.data|) - 1, IntToString(|file.data|)))
  {
    ChunkBounds(i, |file.data|);
    ParseChunkHeader(ChunkStart(i), ChunkEnd(i, |file.data|), |file.data|);
  }

  /** All POSTs of an upload, in the order the page sends them. */
  function ChunkRequests(file: DroppedFile): (reqs: seq<Request>)
    ensures |reqs| == TotalChunks(|file.data|)
  {
    seq(TotalChunks(|file.data|), i requires 0 <= i < TotalChunks(|file.data|) => ChunkRequest(file, i))
  }

  lemma ChunkRequestsNext(file: DroppedFile, k: nat)
    requires k < TotalChunks(|file.data|)
    ensures ChunkRequests(file)[..k + 1] == ChunkRequests(file)[..k] + [ChunkRequest(file, k)]
  {
  }

  /** Storage with the first `k` chunks of `file` written as parts. */
  function WithParts(objects: Objects, file: DroppedFile, k: nat): Objects
    requires k <= TotalChunks(|file.data|)
  {
    if k == 0 then objects
    else WithParts(objects, file, k - 1)[PartKey(StorageKey(file.name), k - 1) := Chunk(file.data, k - 1)]
  }

  /** Storage once the whole file has been uploaded. */
  function Uploaded(objects: Objects, file: DroppedFile): Objects
  {
    if |file.data| == 0 then objects
    else
      var filename := StorageKey(file.name);
      (objects - PartKeys(filename, TotalChunks(|file.data|)))[filename := file.data]
  }

  /** After the first `k` chunks are written, part `j < k` holds chunk `j`. */
  lemma {:induction false} WithPartsAt(objects: Objects, file: DroppedFile, k: nat, j: nat)
    requires j < k <= TotalChunks(|file.data|)
    ensures var key := PartKey(StorageKey(file.name), j);
      key in WithParts(objects, file, k) && WithParts(objects, file, k)[key] == Chunk(file.data, j)
  {
    var filename := StorageKey(file.name);
    var before := WithParts(objects, file, k - 1);
    assert WithParts(objects, file, k) == before[PartKey(filename, k - 1) := Chunk(file.data, k - 1)];
    if j < k - 1 {
      WithPartsAt(objects, file, k - 1, j);
      PartKeysDistinct(filename, j, k - 1);
    }
  }

  /** The first `k` parts hold the first `k` chunks, in order. */
  lemma WithPartsHoldsChunks(objects: Objects, file: DroppedFile, k: nat)
    requires k <= TotalChunks(|file.data|)
    ensures HasParts(WithParts(objects, file, k), StorageKey(file.name), k)
    ensures Parts(WithParts(objects, file, k), StorageKey(file.name), k) == Chunks(file.data)[..k]
  {
    var after := WithParts(objects, file, k);
    var filename := StorageKey(file.name);
    forall j | 0 <= j < k
      ensures PartKey(filename, j) in after && after[PartKey(filename, j)] == Chunks(file.data)[j]
    {
      WithPartsAt(objects, file, k, j);
    }
  }

  /** Writing parts `0 .. k-1` is undone by removing parts `0 .. n-1`, for `k <= n`. */
  lemma {:induction false} WithPartsRemoved(objects: Objects, file: DroppedFile, k: nat, n: nat)
    requires k <= n && k <= TotalChunks(|file.data|)
    ensures WithParts(objects, file, k) - PartKeys(StorageKey(file.name), n)
         == objects - PartKeys(StorageKey(file.name), n)
  {
    if k > 0 {
      WithPartsRemoved(objects, file, k - 1, n);
      assert PartKey(StorageKey(file.name), k - 1) in PartKeys(StorageKey(file.name), n);
    }
  }

  /** Handling an inner chunk over storage that holds the parts before it adds its part; 206. */
  lemma InnerChunkStep(objects: Objects, file: DroppedFile, k: nat)
    requires k + 1 < TotalChunks(|file.data|)
    ensures var out := Handle(WithParts(objects, file, k), ChunkRequest(file, k));
      && out.objects == WithParts(objects, file, k + 1)
      && out.response
         == ChunkReceived(RangeEcho(ContentRange(ChunkStart(k), ChunkEnd(k, |file.data|) - 1, IntToString(|file.data|))))
  {
    ChunkRequestReadable(file, k);
    HandleWellFormed(WithParts(objects, file, k), ChunkRequest(file, k));
  }

  /** The parts before the last chunk, then the last chunk, with all parts removed: the uploaded file. */
  lemma AssembledIsUploaded(objects: Objects, file: DroppedFile)
    requires |file.data| > 0
    ensures var n := TotalChunks(|file.data|);
      var filename := StorageKey(file.name);
      var written := WithParts(objects, file, n - 1);
      HasParts(written, filename, n - 1)
      && (written - PartKeys(filename, n))[filename := Flatten(Parts(written, filename, n - 1)) + Chunk(file.data, n - 1)]
         == Uploaded(objects, file)
  {
    var n := TotalChunks(|file.data|);
    var filename := StorageKey(file.name);
    var written := WithParts(objects, file, n - 1);
    WithPartsHoldsChunks(objects, file, n - 1);
    WithPartsRemoved(objects, file, n - 1, n);
    ChunksThenLast(file.data);
    assert Flatten(Parts(written, filename, n - 1)) + Chunk(file.data, n - 1) == file.data;
    assert written - PartKeys(filename, n) == objects - PartKeys(filename, n);
  }

  /** Handling the last chunk over storage that holds all the other parts stores the file; 200. */
  lemma LastChunkStep(objects: Objects, file: DroppedFile)
    requires |file.data| > 0
    ensures var k := TotalChunks(|file.data|) - 1;
      var out := Handle(WithParts(objects, file, k), ChunkRequest(file, k));
      out.objects == Uploaded(objects, file) && out.response == FileUploaded
  {
    var k := TotalChunks(|file.data|) - 1;
    ChunkRequestReadable(file, k);
    LastRequestAssembles(objects, file, ChunkRequest(file, k));
  }

  /** The same, for any readable request that carries the last chunk of `file`. */
  lemma LastRequestAssembles(objects: Objects, file: DroppedFile, req: Request)
    requires |file.data| > 0
    requires WellFormed(req) && req.filename == file.name
    requires req.chunkIndex == TotalChunks(|file.data|) - 1 && req.totalChunks == TotalChunks(|file.data|)
    requires req.content == Chunk(file.data, req.chunkIndex)
    ensures var out := Handle(WithParts(objects, file, req.chunkIndex), req);
      out.objects == Uploaded(objects, file) && out.response == FileUploaded
  {
    var n := req.totalChunks;
    var k := req.chunkIndex;
    var filename := StorageKey(file.name);
    var written := WithParts(objects, file, k);
    AssembledIsUploaded(objects, file);
    HandleLastChunk(written, req);
    assert Handle(written, req).objects
        == (written - PartKeys(filename, n))[filename := Flatten(Parts(written, filename, k)) + Chunk(file.data, k)];
  }

  /**
   * Once a non-empty file is uploaded, `storage/<name>` holds its bytes, none
   * of its parts is left, and every other key keeps its value.
   */
  lemma UploadedHoldsFile(objects: Objects, file: DroppedFile)
    requires |file.data| > 0
    ensures var out := Uploaded(objects, file);
      var filename := StorageKey(file.name);
      && filename in out && out[filename] == file.data
      && (forall j :: 0 <= j < TotalChunks(|file.data|) ==> PartKey(filename, j) !in out)
      && (forall key :: key != filename && key !in PartKeys(filename, TotalChunks(|file.data|)) ==>
            (key in out <==> key in objects) && (key in objects ==> out[key] == objects[key]))
  {
    var n := TotalChunks(|file.data|);
    var filename := StorageKey(file.name);
    StorageKeyNotPart(filename, n);
    forall j | 0 <= j < n
      ensures PartKey(filename, j) in PartKeys(filename, n)
    {
    }
  }

  /**
   * One iteration's request: cut chunk `chunkIndex` out of the file, label it
   * and POST it, unless the network fails for that index.
   */
  method SendChunk(file: DroppedFile, chunkIndex: nat, server: Store, failing: set<nat>, ghost initial: Objects)
    returns (request: Request, delivery: Delivery)
    requires chunkIndex < TotalChunks(|file.data|)
    requires server.objects == WithParts(initial, file, chunkIndex)
    modifies server
    ensures request == ChunkRequest(file, chunkIndex)
    ensures chunkIndex in failing ==> delivery == Thrown && server.objects == old(server.objects)
    ensures chunkIndex !in failing && chunkIndex + 1 < TotalChunks(|file.data|) ==>
              Continues(delivery) && server.objects == WithParts(initial, file, chunkIndex + 1)
    ensures chunkIndex !in failing && chunkIndex + 1 == TotalChunks(|file.data|) ==>
              delivery == Resolved(FileUploaded) && server.objects == Uploaded(initial, file)
  {
    var totalChunks := TotalChunks(|file.data|);
    var start := chunkIndex * CHUNK_SIZE;
    var end := Min((chunkIndex + 1) * CHUNK_SIZE, |file.data|);
    ChunkBounds(chunkIndex, |file.data|);
    var chunk := file.data[start..end];
    request := Request(file.name, chunk, chunkIndex, totalChunks,
                       Some(ContentRangeValue(start, end, |file.data|)));
    if chunkIndex in failing {
      return request, Thrown;
    }
    if chunkIndex + 1 < totalChunks {
      InnerChunkStep(initial, file, chunkIndex);
    } else {
      LastChunkStep(initial, file);
    }
    var response := server.UploadFile(request);
    delivery := if 200 <= Status(response) < 300 then Resolved(response) else Thrown;
  }

  /** The first index below `n` whose POST fails in the network, or `n` if there is none. */
  function FirstFailure(failing: set<nat>, n: nat): (m: nat)
    ensures m <= n
    ensures forall k :: 0 <= k < m ==> k !in failing
    ensures m < n ==> m in failing
  {
    if n == 0 then 0
    else
      var m := FirstFailure(failing, n - 1);
      if m < n - 1 || n - 1 in failing then m else n
  }

  lemma FirstFailureIs(failing: set<nat>, n: nat, i: nat)
    requires i <= n && (forall k :: 0 <= k < i ==> k !in failing)
    requires i < n ==> i in failing
    ensures FirstFailure(failing, n) == i
  {
  }

  /**
   * How an upload of `file` over storage `initial` ends, given the chunk
   * indices whose POST fails in the network: the chunks are sent in index
   * order up to the first failure or the last chunk; every resolved POST but
   * the last is acknowledged with a status other than 200; a failure leaves
   * the parts before it stored, and a complete upload leaves the file stored.
   */
  ghost predicate UploadOutcome(initial: Objects, file: DroppedFile, failing: set<nat>,
                                sent: seq<Request>, deliveries: seq<Delivery>, final: Objects)
  {
    var n := TotalChunks(|file.data|);
    var m := FirstFailure(failing, n);
    && |sent| == |deliveries| == (if m < n then m + 1 else n)
    && sent == ChunkRequests(file)[..|sent|]
    && (forall k :: 0 <= k < |deliveries| - 1 ==> Continues(deliveries[k]))
    && (m < n ==> deliveries[m] == Thrown && final == WithParts(initial, file, m))
    && (m == n ==> final == Uploaded(initial, file))
    && (m == n > 0 ==> deliveries[n - 1] == Resolved(FileUploaded))
  }

  /** The state of the loop before the POST of chunk `k` is sent. */
  ghost predicate BeforeChunk(initial: Objects, file: DroppedFile, failing: set<nat>,
                              sent: seq<Request>, deliveries: seq<Delivery>, k: nat)
  {
    && k <= TotalChunks(|file.data|)
    && |sent| == |deliveries| == k
    && sent == ChunkRequests(file)[..k]
    && (forall j :: 0 <= j < k ==> Continues(deliveries[j]) && j !in failing)
  }

  lemma StopOnThrow(initial: Objects, file: DroppedFile, failing: set<nat>,
                    sent: seq<Request>, deliveries: seq<Delivery>, k: nat, final: Objects)
    requires k < TotalChunks(|file.data|) && k in failing
    requires BeforeChunk(initial, file, failing, sent, deliveries, k)
    requires final == WithParts(initial, file, k)
    ensures UploadOutcome(initial, file, failing, sent + [ChunkRequest(file, k)], deliveries + [Thrown], final)
  {
    FirstFailureIs(failing, TotalChunks(|file.data|), k);
    ChunkRequestsNext(file, k);
  }

  lemma StopOnUploaded(initial: Objects, file: DroppedFile, failing: set<nat>,
                       sent: seq<Request>, deliveries: seq<Delivery>, final: Objects)
    requires |file.data| > 0
    requires TotalChunks(|file.data|) - 1 !in failing
    requires BeforeChunk(initial, file, failing, sent, deliveries, TotalChunks(|file.data|) - 1)
    requires final == Uploaded(initial, file)
    ensures UploadOutcome(initial, file, failing,
                          sent + [ChunkRequest(file, TotalChunks(|file.data|) - 1)],
                          deliveries + [Resolved(FileUploaded)], final)
  {
    var n := TotalChunks(|file.data|);
    FirstFailureIs(failing, n, n);
    ChunkRequestsNext(file, n - 1);
    assert ChunkRequests(file)[..n] == ChunkRequests(file);
  }

  lemma ContinueAfterChunk(initial: Objects, file: DroppedFile, failing: set<nat>,
                           sent: seq<Request>, deliveries: seq<Delivery>, k: nat, d: Delivery)
    requires k < TotalChunks(|file.data|) && k !in failing && Continues(d)
    requires BeforeChunk(initial, file, failing, sent, deliveries, k)
    ensures BeforeChunk(initial, file, failing, sent + [ChunkRequest(file, k)], deliveries + [d], k + 1)
  {
    ChunkRequestsNext(file, k);
  }

  /**
   * One pass of the loop body for chunk `k`: send it, and account for the
   * upload so far. A POST that throws or answers 200 ends the upload as
   * `UploadOutcome` describes; any other reply leaves the loop ready for the
   * next chunk.
   */
  method SendAndAccount(file: DroppedFile, k: nat, server: Store, failing: set<nat>,
                        ghost initial: Objects, ghost sent: seq<Request>, ghost deliveries: seq<Delivery>)
    returns (request: Request, delivery: Delivery)
    requires k < TotalChunks(|file.data|)
    requires BeforeChunk(initial, file, failing, sent, deliveries, k)
    requires server.objects == WithParts(initial, file, k)
    modifies server
    ensures request == ChunkRequest(file, k)
    ensures !Continues(delivery) ==>
      UploadOutcome(initial, file, failing, sent + [request], deliveries + [delivery], server.objects)
    ensures Continues(delivery) ==>
      && k + 1 < TotalChunks(|file.data|)
      && BeforeChunk(initial, file, failing, sent + [request], deliveries + [delivery], k + 1)
      && server.objects == WithParts(initial, file, k + 1)
  {
    request, delivery := SendChunk(file, k, server, failing, initial);
    if delivery.Thrown? {
      StopOnThrow(initial, file, failing, sent, deliveries, k, server.objects);
    } else if Status(delivery.response) == 200 {
      StopOnUploaded(initial, file, failing, sent, deliveries, server.objects);
    } else {
      ContinueAfterChunk(initial, file, failing, sent, deliveries, k, delivery);
    }
  }

  /**
   * `onDrop`: upload the first dropped file to `server`, one chunk at a time,
   * in index order, stopping at the first exception or the first 200 reply.
   */
  method OnDrop(acceptedFiles: seq<DroppedFile>, server: Store, failing: set<nat>)
    returns (sent: seq<Request>, deliveries: seq<Delivery>)
    modifies server
    ensures |acceptedFiles| == 0 ==> sent == [] && server.objects == old(server.objects)
    ensures |acceptedFiles| > 0 ==>
      UploadOutcome(old(server.objects), acceptedFiles[0], failing, sent, deliveries, server.objects)
  {
    sent, deliveries := [], [];
    if |acceptedFiles| == 0 {
      return;
    }
    var file := acceptedFiles[0];
    var totalChunks := TotalChunks(|file.data|);
    ghost var initial := server.objects;
    var chunkIndex := 0;
    while chunkIndex < totalChunks
      invariant chunkIndex == 0 || chunkIndex < totalChunks
      invariant BeforeChunk(initial, file, failing, sent, deliveries, chunkIndex)
      invariant server.objects == WithParts(initial, file, chunkIndex)
    {
      var request, delivery := SendAndAccount(file, chunkIndex, server, failing, initial, sent, deliveries);
      sent := sent + [request];
      deliveries := deliveries + [delivery];
      if delivery.Thrown? {
        break;
      }
      if Status(delivery.response) == 200 {
        break;
      }
      // any other resolved status: the page refreshes its listing and goes on
      chunkIndex := chunkIndex + 1;
    }
  }

}
