/**
 * The upload handler of the Python service. Object storage is a map from key
 * to bytes held in a `Store` object; each POST writes one part under
 * `storage/<name>.part<i>`, and the POST of the last chunk concatenates the
 * parts into `storage/<name>` in index order, removing each part as it goes.
 *
 * `Handle` is the specification of one request; `Store.UploadFile` performs
 * it step by step, as the handler does.
 */
module PartStore {
  import opened Wrappers
  import opened Bytes
  import opened Text
  import opened RangeHeader

  /** The contents of object storage, from key to the bytes stored under it. */
  type Objects = map<string, seq<byte>>

  /** One POST: the uploaded file part, the two form fields and the Content-Range header. */
  datatype Request = Request(
    filename: string,
    content: seq<byte>,
    chunkIndex: int,
    totalChunks: int,
    contentRange: Option<string>)

  datatype Response =
    | MissingContentRange           // 400 "Content-Range header is missing"
    | InternalError                 // 500: an exception escaped the handler
    | ChunkReceived(range: string)  // 206 "Chunk received", with a Range header
    | FileUploaded                  // 200 {"message": "File uploaded successfully"}

  function Status(r: Response): nat
  {
    match r
    case MissingContentRange => 400
    case InternalError => 500
    case ChunkReceived(_) => 206
    case FileUploaded => 200
  }

  /** The state of storage after a request, and the reply. */
  datatype Outcome = Outcome(objects: Objects, response: Response)

  function StorageKey(name: string): string
  {
    "storage/" + name
  }

  /** The key of part `i`; Python prints a negative index with its sign. */
  function PartKey(filename: string, i: int): string
  {
    filename + ".part" + IntToString(i)
  }

  /** Distinct indices name distinct parts. */
  lemma PartKeyInjective(filename: string, i: int, j: int)
    requires PartKey(filename, i) == PartKey(filename, j)
    ensures i == j
  {
    var prefix := filename + ".part";
    assert IntToString(i) == PartKey(filename, i)[|prefix|..];
    assert IntToString(j) == PartKey(filename, j)[|prefix|..];
    IntToStringInjective(i, j);
  }

  /** Parts with distinct indices never share a key. */
  lemma PartKeysDistinct(filename: string, i: int, j: int)
    requires i != j
    ensures PartKey(filename, i) != PartKey(filename, j)
  {
    if PartKey(filename, i) == PartKey(filename, j) {
      PartKeyInjective(filename, i, j);
    }
  }

  /** The keys of parts `0 .. n-1`. */
  function PartKeys(filename: string, n: nat): set<string>
  {
    set j | 0 <= j < n :: PartKey(filename, j)
  }

  lemma PartKeysNext(filename: string, n: nat)
    ensures PartKeys(filename, n + 1) == PartKeys(filename, n) + {PartKey(filename, n)}
    ensures PartKey(filename, n) !in PartKeys(filename, n)
  {
    if PartKey(filename, n) in PartKeys(filename, n) {
      var j :| 0 <= j < n && PartKey(filename, j) == PartKey(filename, n);
      PartKeyInjective(filename, j, n);
    }
  }

  /** The destination object is never one of its own parts. */
  lemma StorageKeyNotPart(filename: string, n: nat)
    ensures filename !in PartKeys(filename, n)
  {
    forall j | 0 <= j < n
      ensures PartKey(filename, j) != filename
    {
      assert |PartKey(filename, j)| > |filename|;
    }
  }

  /** Removing keys in two steps removes their union. */
  lemma RemoveBoth(objects: Objects, a: set<string>, b: set<string>)
    ensures objects - a - b == objects - (a + b)
  {
  }

  predicate HasParts(objects: Objects, filename: string, n: nat)
  {
    forall j :: 0 <= j < n ==> PartKey(filename, j) in objects
  }

  /** The bytes of parts `0 .. n-1`, in index order. */
  function Parts(objects: Objects, filename: string, n: nat): (ps: seq<seq<byte>>)
    requires HasParts(objects, filename, n)
    ensures |ps| == n
    ensures forall j :: 0 <= j < n ==> ps[j] == objects[PartKey(filename, j)]
  {
    seq(n, j requires 0 <= j < n => objects[PartKey(filename, j)])
  }

  lemma PartsNext(objects: Objects, filename: string, n: nat)
    requires HasParts(objects, filename, n + 1)
    ensures Parts(objects, filename, n + 1)
         == Parts(objects, filename, n) + [objects[PartKey(filename, n)]]
  {
  }

  /** The number of parts, from 0 on, present before the first one that is missing (at most `n`). */
  function FirstMissing(objects: Objects, filename: string, n: nat): (m: nat)
    ensures m <= n
    ensures HasParts(objects, filename, m)
    ensures m < n ==> PartKey(filename, m) !in objects
  {
    if n == 0 then 0
    else
      var m := FirstMissing(objects, filename, n - 1);
      if m < n - 1 || PartKey(filename, n - 1) !in objects then m else n
  }

  /** The three properties of FirstMissing pin it down. */
  lemma FirstMissingIs(objects: Objects, filename: string, n: nat, i: nat)
    requires i <= n && HasParts(objects, filename, i)
    requires i < n ==> PartKey(filename, i) !in objects
    ensures FirstMissing(objects, filename, n) == i
  {
  }

  /**
   * The assembly of the last request. Every present part from 0 on is appended
   * and removed; a missing part stops the loop with an exception, and the
   * destination, closed on the way out, holds what was appended so far.
   */
  function Assemble(objects: Objects, filename: string, totalChunks: int): Outcome
  {
    var n := if totalChunks > 0 then totalChunks else 0;
    var m := FirstMissing(objects, filename, n);
    Outcome(
      (objects - PartKeys(filename, m))[filename := Flatten(Parts(objects, filename, m))],
      if m == n then FileUploaded else InternalError)
  }

  /** The echo of the parsed byte range in a 206 reply. */
  function RangeEcho(range: ContentRange): string
  {
    "bytes=" + IntToString(range.start) + "-" + IntToString(range.end)
  }

  /** What one POST does to storage, and what it answers. */
  function Handle(objects: Objects, req: Request): (out: Outcome)
    ensures out.response.MissingContentRange?
        <==> req.contentRange.None? || req.contentRange.value == ""
    ensures out.response.MissingContentRange? ==> out.objects == objects
    ensures out.response.ChunkReceived?
        <==> !out.response.MissingContentRange?
             && Parse(req.contentRange.value).Some?
             && req.chunkIndex != req.totalChunks - 1
  {
    if req.contentRange.None? || req.contentRange.value == "" then
      Outcome(objects, MissingContentRange)
    else
      match Parse(req.contentRange.value)
      case None => Outcome(objects, InternalError)
      case Some(range) =>
        var filename := StorageKey(req.filename);
        var written := objects[PartKey(filename, req.chunkIndex) := req.content];
        if req.chunkIndex == req.totalChunks - 1 then
          Assemble(written, filename, req.totalChunks)
        else
          Outcome(written, ChunkReceived(RangeEcho(range)))
  }

  /** A request whose Content-Range header is present and readable. */
  predicate WellFormed(req: Request)
  {
    req.contentRange.Some? && req.contentRange.value != "" && Parse(req.contentRange.value).Some?
  }

  /** A request with a readable header writes its part, then assembles or acknowledges. */
  lemma HandleWellFormed(objects: Objects, req: Request)
    requires WellFormed(req)
    ensures var filename := StorageKey(req.filename);
      var written := objects[PartKey(filename, req.chunkIndex) := req.content];
      Handle(objects, req)
        == if req.chunkIndex == req.totalChunks - 1 then Assemble(written, filename, req.totalChunks)
           else Outcome(written, ChunkReceived(RangeEcho(Parse(req.contentRange.value).value)))
  {
  }

  /** A header that is present but unreadable fails with 500 and stores nothing. */
  lemma HandleUnreadableRange(objects: Objects, req: Request)
    requires req.contentRange.Some? && req.contentRange.value != ""
    requires Parse(req.contentRange.value).None?
    ensures Handle(objects, req).objects == objects
    ensures Status(Handle(objects, req).response) == 500
  {
  }

  /**
   * A chunk that is not the last one is stored under its part key, every other
   * key keeps its value, and the reply is 206 echoing the parsed range.
   */
  lemma HandleInnerChunk(objects: Objects, req: Request)
    requires WellFormed(req) && req.chunkIndex != req.totalChunks - 1
    ensures var out := Handle(objects, req);
      var key := PartKey(StorageKey(req.filename), req.chunkIndex);
      && key in out.objects && out.objects[key] == req.content
      && out.objects.Keys == objects.Keys + {key}
      && (forall k :: k in objects && k != key ==> out.objects[k] == objects[k])
      && out.response == ChunkReceived(RangeEcho(Parse(req.contentRange.value).value))
      && Status(out.response) == 206
  {
  }

  /** With every part present, assembly publishes all of them in order and removes them. */
  lemma AssembleComplete(objects: Objects, filename: string, n: nat)
    requires HasParts(objects, filename, n)
    ensures Assemble(objects, filename, n)
         == Outcome((objects - PartKeys(filename, n))[filename := Flatten(Parts(objects, filename, n))],
                    FileUploaded)
  {
    FirstMissingIs(objects, filename, n, n);
  }

  /** Writing part `n-1` over storage that holds parts `0 .. n-2` appends it to the parts. */
  lemma PartsAfterWrite(objects: Objects, filename: string, n: nat, content: seq<byte>)
    requires n >= 1 && HasParts(objects, filename, n - 1)
    ensures var written := objects[PartKey(filename, n - 1) := content];
      && HasParts(written, filename, n)
      && Parts(written, filename, n) == Parts(objects, filename, n - 1) + [content]
  {
    var last := PartKey(filename, n - 1);
    var written := objects[last := content];
    forall j | 0 <= j < n - 1
      ensures PartKey(filename, j) in written && written[PartKey(filename, j)] == objects[PartKey(filename, j)]
    {
      PartKeysDistinct(filename, j, n - 1);
    }
    assert HasParts(written, filename, n);
    var before := Parts(objects, filename, n - 1);
    forall j | 0 <= j < n
      ensures Parts(written, filename, n)[j] == (before + [content])[j]
    {
    }
  }

  /** Removing parts `0 .. n-1` also removes a value just written to part `n-1`. */
  lemma RemoveWrittenPart(objects: Objects, filename: string, n: nat, content: seq<byte>)
    requires n >= 1
    ensures objects[PartKey(filename, n - 1) := content] - PartKeys(filename, n)
         == objects - PartKeys(filename, n)
  {
    assert PartKey(filename, n - 1) in PartKeys(filename, n);
  }

  /** Writing the last part over storage that holds the earlier ones. */
  lemma WriteLastPart(objects: Objects, filename: string, n: nat, content: seq<byte>)
    requires n >= 1 && HasParts(objects, filename, n - 1)
    ensures var written := objects[PartKey(filename, n - 1) := content];
      && HasParts(written, filename, n)
      && Flatten(Parts(written, filename, n)) == Flatten(Parts(objects, filename, n - 1)) + content
      && written - PartKeys(filename, n) == objects - PartKeys(filename, n)
  {
    PartsAfterWrite(objects, filename, n, content);
    FlattenSnoc(Parts(objects, filename, n - 1), content);
    RemoveWrittenPart(objects, filename, n, content);
  }

  /**
   * The last chunk, with every earlier part present, publishes the parts
   * followed by its own bytes, leaves none of the parts behind, changes no
   * other key and answers 200.
   */
  lemma HandleLastChunk(objects: Objects, req: Request)
    requires WellFormed(req) && req.totalChunks >= 1 && req.chunkIndex == req.totalChunks - 1
    requires HasParts(objects, StorageKey(req.filename), req.chunkIndex)
    ensures var out := Handle(objects, req);
      var filename := StorageKey(req.filename);
      && out.objects
         == (objects - PartKeys(filename, req.totalChunks))
              [filename := Flatten(Parts(objects, filename, req.chunkIndex)) + req.content]
      && out.response == FileUploaded
      && Status(out.response) == 200
  {
    var filename := StorageKey(req.filename);
    var n := req.totalChunks;
    WriteLastPart(objects, filename, n, req.content);
    AssembleComplete(objects[PartKey(filename, n - 1) := req.content], filename, n);
  }

  /**
   * After the last chunk the destination holds the parts in index order
   * followed by the last chunk's bytes, none of the parts is left, and every
   * other key keeps its value.
   */
  lemma LastChunkLeavesNoParts(objects: Objects, req: Request)
    requires WellFormed(req) && req.totalChunks >= 1 && req.chunkIndex == req.totalChunks - 1
    requires HasParts(objects, StorageKey(req.filename), req.chunkIndex)
    ensures var out := Handle(objects, req).objects;
      var filename := StorageKey(req.filename);
      && filename in out
      && out[filename] == Flatten(Parts(objects, filename, req.chunkIndex)) + req.content
      && (forall j :: 0 <= j < req.totalChunks ==> PartKey(filename, j) !in out)
      && (forall k :: k != filename && k !in PartKeys(filename, req.totalChunks) ==>
            (k in out <==> k in objects) && (k in objects ==> out[k] == objects[k]))
  {
    var filename := StorageKey(req.filename);
    HandleLastChunk(objects, req);
    StorageKeyNotPart(filename, req.totalChunks);
    forall j | 0 <= j < req.totalChunks
      ensures PartKey(filename, j) in PartKeys(filename, req.totalChunks)
    {
    }
  }

  /**
   * Assembly after the last part `i` is written, while an earlier part is
   * missing, stops at the first gap among the parts before it.
   */
  lemma AssembleAfterGap(objects: Objects, filename: string, i: nat, n: int, content: seq<byte>, gap: nat)
    requires i == n - 1 && gap < i && PartKey(filename, gap) !in objects
    ensures var written := objects[PartKey(filename, i) := content];
      var m := FirstMissing(objects, filename, i);
      && m <= gap
      && Assemble(written, filename, n)
         == Outcome((written - PartKeys(filename, m))[filename := Flatten(Parts(objects, filename, m))],
                    InternalError)
  {
    var last := PartKey(filename, i);
    var written := objects[last := content];
    var m := FirstMissing(objects, filename, i);
    assert m <= gap;
    forall j | 0 <= j <= m
      ensures PartKey(filename, j) != last
    {
      PartKeysDistinct(filename, j, i);
    }
    assert HasParts(written, filename, m);
    var total: nat := n;
    FirstMissingIs(written, filename, total, m);
    assert Parts(written, filename, m) == Parts(objects, filename, m);
  }

  /** What a failed assembly leaves: the destination, the last part, no earlier part, and every unrelated key. */
  lemma GapFrame(objects: Objects, filename: string, i: nat, content: seq<byte>, m: nat, combined: seq<byte>)
    requires m < i
    ensures var last := PartKey(filename, i);
      var out := (objects[last := content] - PartKeys(filename, m))[filename := combined];
      && filename in out && out[filename] == combined
      && last in out && out[last] == content
      && (forall j :: 0 <= j < m ==> PartKey(filename, j) !in out)
      && (forall k :: k != filename && k != last && k !in PartKeys(filename, m) ==>
            (k in out <==> k in objects) && (k in objects ==> out[k] == objects[k]))
  {
    var last := PartKey(filename, i);
    StorageKeyNotPart(filename, m);
    forall j | 0 <= j < m
      ensures PartKey(filename, j) in PartKeys(filename, m)
    {
    }
    StorageKeyNotPart(filename, i + 1);
    assert last in PartKeys(filename, i + 1);
    if last in PartKeys(filename, m) {
      var j :| 0 <= j < m && PartKey(filename, j) == last;
      PartKeysDistinct(filename, j, i);
    }
  }

  /**
   * The last chunk while an earlier part is missing fails with 500; the
   * destination then holds the parts before the first gap, those parts and
   * no other key are gone, and the last chunk's own part stays stored.
   */
  lemma HandleLastChunkGap(objects: Objects, req: Request, gap: nat)
    requires WellFormed(req) && req.chunkIndex == req.totalChunks - 1
    requires gap < req.chunkIndex && PartKey(StorageKey(req.filename), gap) !in objects
    ensures var out := Handle(objects, req);
      var filename := StorageKey(req.filename);
      var m := FirstMissing(objects, filename, req.chunkIndex);
      && m <= gap
      && filename in out.objects
      && out.objects[filename] == Flatten(Parts(objects, filename, m))
      && PartKey(filename, req.chunkIndex) in out.objects
      && out.objects[PartKey(filename, req.chunkIndex)] == req.content
      && (forall j :: 0 <= j < m ==> PartKey(filename, j) !in out.objects)
      && (forall k :: k != filename && k != PartKey(filename, req.chunkIndex) && k !in PartKeys(filename, m) ==>
            (k in out.objects <==> k in objects) && (k in objects ==> out.objects[k] == objects[k]))
      && out.response == InternalError
  {
    var filename := StorageKey(req.filename);
    var m := FirstMissing(objects, filename, req.chunkIndex);
    HandleWellFormed(objects, req);
    AssembleAfterGap(objects, filename, req.chunkIndex, req.totalChunks, req.content, gap);
    GapFrame(objects, filename, req.chunkIndex, req.content, m, Flatten(Parts(objects, filename, m)));
  }

  /** The byte range and the declared size do not affect what is stored. */
  lemma HandleIgnoresRange(objects: Objects, req: Request, header: string)
    requires WellFormed(req) && header != "" && Parse(header).Some?
    ensures Handle(objects, req.(contentRange := Some(header))).objects
         == Handle(objects, req).objects
  {
  }

  /**
   * Sending a chunk again replaces what the earlier send of that index stored:
   * the result is as if only the second send had happened.
   */
  lemma HandleResendOverwrites(objects: Objects, first: Request, again: Request)
    requires WellFormed(first) && first.chunkIndex != first.totalChunks - 1
    requires WellFormed(again)
    requires again.filename == first.filename && again.chunkIndex == first.chunkIndex
    ensures Handle(Handle(objects, first).objects, again) == Handle(objects, again)
  {
    var key := PartKey(StorageKey(first.filename), first.chunkIndex);
    assert objects[key := first.content][key := again.content] == objects[key := again.content];
  }

  /** Object storage as the handler sees it: a mutable map from key to bytes. */
  class Store {
    var objects: Objects

    constructor (initial: Objects)
      ensures objects == initial
    {
      objects := initial;
    }

    /** `upload_file`: one POST, performed step by step. */
    method UploadFile(req: Request) returns (response: Response)
      modifies this
      ensures objects == Handle(old(objects), req).objects
      ensures response == Handle(old(objects), req).response
    {
      if req.contentRange.None? || req.contentRange.value == "" {
        return MissingContentRange;
      }
      var range := Parse(req.contentRange.value);
      if range.None? {
        return InternalError;
      }
      var filename := StorageKey(req.filename);
      objects := objects[PartKey(filename, req.chunkIndex) := req.content];
      if req.chunkIndex != req.totalChunks - 1 {
        return ChunkReceived(RangeEcho(range.value));
      }
      response := AssembleParts(filename, req.totalChunks);
    }

    /**
     * The last request's loop over `range(totalChunks)`: append each part to
     * the destination and remove it.
     */
    method AssembleParts(filename: string, totalChunks: int) returns (response: Response)
      modifies this
      ensures Outcome(objects, response) == Assemble(old(objects), filename, totalChunks)
    {
      ghost var written := objects;
      ghost var n: nat := if totalChunks > 0 then totalChunks else 0;
      var combined: seq<byte> := [];
      var ichunk := 0;
      while ichunk < totalChunks
        invariant 0 <= ichunk <= n
        invariant HasParts(written, filename, ichunk)
        invariant combined == Flatten(Parts(written, filename, ichunk))
        invariant objects == written - PartKeys(filename, ichunk)
      {
        var key := PartKey(filename, ichunk);
        PartKeysNext(filename, ichunk);
        if key !in objects {
          FirstMissingIs(written, filename, n, ichunk);
          objects := objects[filename := combined];
          return InternalError;
        }
        combined := combined + objects[key];
        RemoveBoth(written, PartKeys(filename, ichunk), {key});
        objects := objects - {key};
        PartsNext(written, filename, ichunk);
        FlattenSnoc(Parts(written, filename, ichunk), written[key]);
        ichunk := ichunk + 1;
      }
      FirstMissingIs(written, filename, n, ichunk);
      objects := objects[filename := combined];
      return FileUploaded;
    }
  }

}
