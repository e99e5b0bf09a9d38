# Chunked upload: a Dafny model

The chunked-upload demo moves one file from a browser page to object storage
in fixed-size pieces.

- **The page** (`nextjs/src/app/page.tsx`) handles a drop.
  - It cuts the first dropped file into `ceil(size / CHUNK_SIZE)` chunks of 2 MiB.
  - Each chunk is labelled with a `Content-Range: bytes start-(end-1)/size` header.
  - The chunks are POSTed one by one in increasing index order.
  - The loop stops at the first 200 reply or the first thrown error.
  - The page also shows each stored object's progress: `ceil(100*uploaded/total)` followed by `%`, or `Completed`.
- **The service** (`python/chunked_upload/main.py`, `upload_file`) handles one POST.
  - It rejects a POST without a Content-Range header (400).
  - It splits the header value into its start, end and size fields.
  - It writes the chunk body to `storage/<name>.part<i>`.
  - On the last index it appends parts `0 .. totalChunks-1` to `storage/<name>` and removes each part (200).
  - Otherwise it answers 206 with a `Range: bytes=start-end` header.

## Modules

| module | contents |
|---|---|
| `Wrappers` | `Option` |
| `Bytes` | bytes, and the concatenation of a list of byte strings |
| `Text` | decimal integer text (both directions) and character splitting and joining, as Python's `str.split` does |
| `ChunkGeometry` | `CHUNK_SIZE`, the chunk count, chunk bounds, slices and the Content-Range value the page formats |
| `Progress` | the progress cell of the objects table, with JavaScript's division results for a zero total |
| `RangeHeader` | the service's reading of the Content-Range header |
| `PartStore` | storage as a map from key to bytes, the handler as a function `Handle` on that map, and the class `Store` whose methods perform the same handling in place |
| `Uploader` | the drop handler's send loop against a `Store`, and the end-to-end properties |

Storage is a `map<string, seq<byte>>`. The `Store` class holds it in a field. `Store.UploadFile` and `Store.AssembleParts` update the field step by step, as the handler does. Each method's postcondition ties the new map and the reply to the pure function `PartStore.Handle` or `PartStore.Assemble`. The properties of the service are proved as lemmas about those functions.

The page's loop is the method `Uploader.OnDrop`. It posts straight to a `Store`. The network is an input: `failing` is the set of chunk indices whose POST throws before it reaches the service.

The main end-to-end result is `Uploader.OnDrop` together with `Uploader.UploadedHoldsFile`. When no POST fails and the file is non-empty, the loop ends with these results:

- `storage/<name>` holds exactly the original bytes.
- No `storage/<name>.part<k>` key is left for any chunk index `k`.
- Every other key keeps its value.

Where a POST fails, the loop stops there. Storage then holds exactly the parts sent before the failure.

The model follows what the code does in four places where a plain reading of the protocol suggests otherwise:

- **A missing part.** The destination is opened in a `with` block. The model takes it that closing the file on the way out of that block commits what was appended before the exception, as the filesystem library's buffered file does when it is closed; this rests on that library's behaviour, not on anything `python/chunked_upload/main.py:38-43` shows. The last request with a missing part therefore fails with 500 and leaves a partial `storage/<name>` behind. The parts before the gap have already been removed, so sending the missing chunk and the last chunk again cannot rebuild the file (`PartStore.HandleLastChunkGap`).
- **The progress cell.** It reaches `100%` before the upload completes: 199 of 200 chunks already shows `100%`. `Progress.PercentFull` states the exact condition for 100, and `Progress.PercentFullBeforeLastChunk` exhibits the case.
- **A zero-byte file.** Its chunk count is 0, so the loop sends no POST and no 200 comes back. `storage/<name>` is neither created nor overwritten, and an earlier object of that name stays (`Uploader.OnDrop` with `Uploader.Uploaded`).
- **The chunk size.** The comment next to `CHUNK_SIZE` says 5 MB. The value is `2 * 1024 * 1024`, and the model uses the value.

## Model

| member | source | states |
|---|---|---|
| ChunkGeometry.CeilDiv | nextjs/src/app/page.tsx:44 | the result is the least `q` with `a <= b*q`, i.e. `b*(q-1) < a <= b*q` |
| ChunkGeometry.TotalChunks | nextjs/src/app/page.tsx:44 | `(n-1)*CHUNK_SIZE < size <= n*CHUNK_SIZE`, and there are no chunks exactly when the file is empty |
| ChunkGeometry.ChunkBounds | nextjs/src/app/page.tsx:44-48 | every chunk index below the count has `start < end <= size` and a length of at most `CHUNK_SIZE` |
| ChunkGeometry.ChunksContiguous | nextjs/src/app/page.tsx:46-48 | chunk 0 starts at 0, chunk `i` ends where chunk `i+1` starts, and the last chunk ends at `size` |
| ChunkGeometry.InnerChunksFull | nextjs/src/app/page.tsx:47-48 | every chunk but the last is exactly `CHUNK_SIZE` long |
| ChunkGeometry.Chunk | nextjs/src/app/page.tsx:49 | the slice of chunk `i` is non-empty and at most `CHUNK_SIZE` bytes |
| ChunkGeometry.Chunks | nextjs/src/app/page.tsx:46-49 | there is one slice per chunk index |
| ChunkGeometry.ChunksPrefix | nextjs/src/app/page.tsx:46-49 | the first `k` slices concatenated are the first `min(k*CHUNK_SIZE, size)` bytes of the file |
| ChunkGeometry.ChunksReassemble | nextjs/src/app/page.tsx:46-49 | all slices concatenated in index order give back the file |
| ChunkGeometry.ChunksThenLast | nextjs/src/app/page.tsx:46-49 | the slices before the last one, followed by the last slice, give back the file |
| Text.NatToStringCanonical | nextjs/src/app/page.tsx:60 | decimal text of a natural number is canonical digits, and is `"0"` only for 0 |
| Text.IntToStringShape | python/chunked_upload/main.py:34 | decimal text of an integer is non-empty, is canonical digits for a non-negative value, and starts with `-` exactly for a negative one |
| Text.ParseInt | python/chunked_upload/main.py:30 | a value is read exactly when the text is a non-empty digit string |
| Text.ParseNatToString | python/chunked_upload/main.py:30 | reading back the decimal text of `n` gives `n` |
| Text.CanonicalValuePositive | python/chunked_upload/main.py:30 | canonical digit text other than `"0"` denotes a positive number |
| Text.NatToStringOfValue | python/chunked_upload/main.py:30 | formatting the value of canonical digit text gives back that text |
| Text.IntToStringInjective | python/chunked_upload/main.py:34 | distinct integers have distinct decimal texts |
| Text.Split | python/chunked_upload/main.py:29-30 | splitting yields at least one piece |
| Text.SplitPiecesFree | python/chunked_upload/main.py:29-30 | no piece of a split contains the separator |
| Text.JoinSplit | python/chunked_upload/main.py:29-30 | joining the pieces of a split with the separator gives back the text |
| Text.SplitCons | python/chunked_upload/main.py:29-30 | splitting `a + sep + b`, with no separator in `a`, yields `a` followed by the pieces of `b` |
| Text.SplitNoSep | python/chunked_upload/main.py:29-30 | text without the separator splits into itself alone |
| Text.SplitPair | python/chunked_upload/main.py:29-30 | `a + sep + b`, with no separator in `a` or `b`, splits into exactly `a` and `b` |
| Text.SplitJoin | python/chunked_upload/main.py:29-30 | pieces free of the separator, joined and split again, come back unchanged |
| RangeHeader.ParseFields | python/chunked_upload/main.py:29-30 | a header that is read contains a space, and its size field never contains `/`, because the second word must split at `/` into exactly two halves |
| RangeHeader.ParseWellFormed | python/chunked_upload/main.py:29-30 | `unit S-E/N` with digit strings `S`, `E` reads as start `S`, end `E` and size text `N` |
| RangeHeader.ParseNeedsSpace | python/chunked_upload/main.py:29 | a header without a space is not read |
| RangeHeader.ParseChunkHeader | python/chunked_upload/main.py:29-30 | the header value the page formats for `[start, end)` of a file of `size` bytes reads back as `(start, end-1, size)` |
| RangeHeader.ChunkHeaderInFile | nextjs/src/app/page.tsx:60 | for every chunk the header is read; its last-byte field lies below the file size, not below the first byte, and spans exactly the chunk's length |
| Progress.Percent | nextjs/src/app/page.tsx:117 | the percent is a finite number exactly when the total is non-zero; with a zero total it is NaN exactly when nothing was uploaded |
| Progress.ProgressCell | nextjs/src/app/page.tsx:114-118 | the cell reads `Completed` exactly for a completed object, and otherwise ends in `%` |
| Progress.PercentInRange | nextjs/src/app/page.tsx:117 | for `0 <= uploaded <= total`, `total > 0`, the percent lies in `[0, 100]`, is 0 exactly when nothing was uploaded, and is 100 when all chunks were |
| Progress.PercentFull | nextjs/src/app/page.tsx:117 | the percent is 100 exactly when `100*uploaded > 99*total` |
| Progress.PercentFullBeforeLastChunk | nextjs/src/app/page.tsx:114-118 | an object with 199 of 200 chunks, not yet completed, already shows `100%` |
| Progress.PercentMonotone | nextjs/src/app/page.tsx:117 | more uploaded chunks never show a smaller percent |
| PartStore.PartKeyInjective | python/chunked_upload/main.py:34 | distinct indices name distinct part keys |
| PartStore.PartKeysDistinct | python/chunked_upload/main.py:34 | the part keys of two different indices of one file differ |
| PartStore.PartKeysNext | python/chunked_upload/main.py:39-43 | the keys of parts `0 .. n` are those of `0 .. n-1` plus part `n` |
| PartStore.StorageKeyNotPart | python/chunked_upload/main.py:32-34 | the destination key is none of its own part keys |
| PartStore.FirstMissing | python/chunked_upload/main.py:39-40 | the first missing part index is at most the count; every part before it is present, and the part at it is absent |
| PartStore.FirstMissingIs | python/chunked_upload/main.py:39-40 | an index whose predecessors are present and which is itself absent (or equals the count) is the first missing one |
| PartStore.Handle | python/chunked_upload/main.py:17-49 | 400 exactly when the header is absent or empty, with storage unchanged; 206 exactly when the header is read and the chunk is not the last |
| PartStore.HandleUnreadableRange | python/chunked_upload/main.py:29-30 | a present header that cannot be read fails with 500 and changes nothing |
| PartStore.HandleInnerChunk | python/chunked_upload/main.py:32-35 | a non-final chunk stores exactly its body under its part key, adds no other key, changes no other value, and answers 206 echoing the parsed range |
| PartStore.AssembleComplete | python/chunked_upload/main.py:37-45 | with all parts present, assembly stores their concatenation in index order, removes them all and answers 200 |
| PartStore.PartsAfterWrite | python/chunked_upload/main.py:34-41 | writing part `n-1` over storage that holds parts `0 .. n-2` makes all `n` parts present, read as the earlier ones followed by the body |
| PartStore.RemoveWrittenPart | python/chunked_upload/main.py:34-43 | removing all part keys after writing one of them gives the same storage as removing them without the write |
| PartStore.WriteLastPart | python/chunked_upload/main.py:34-41 | writing the last part over storage that holds the earlier ones makes all parts present, with the last one equal to the body |
| PartStore.HandleLastChunk | python/chunked_upload/main.py:34-45 | the last chunk over storage holding all earlier parts stores their concatenation followed by its body, with all parts removed, and answers 200 |
| PartStore.LastChunkLeavesNoParts | python/chunked_upload/main.py:39-45 | after a successful last chunk no part key of the upload remains, and every unrelated key is unchanged |
| PartStore.AssembleAfterGap | python/chunked_upload/main.py:37-43 | with part `gap` missing, assembly after writing the last part stops at the first missing index, which is at most `gap`, storing the parts before it and answering 500 |
| PartStore.GapFrame | python/chunked_upload/main.py:38-43 | after a stopped assembly the destination holds what was appended, no part before the gap is left, the last part still holds the body, and every key that is neither a removed part nor the destination is unchanged |
| PartStore.HandleLastChunkGap | python/chunked_upload/main.py:38-43 | with an earlier part missing, the last chunk answers 500, the destination holds the parts before the first gap, those parts are no longer stored, no other key changes, and the last part stays stored |
| PartStore.HandleIgnoresRange | python/chunked_upload/main.py:29-35 | which readable header a chunk carries does not change what is stored |
| PartStore.HandleResendOverwrites | python/chunked_upload/main.py:34-35 | re-sending a non-final chunk leaves storage and the reply as if only the second send had happened |
| PartStore.Store.constructor | python/chunked_upload/main.py:9 | the store starts with the given objects |
| PartStore.Store.UploadFile | python/chunked_upload/main.py:17-49 | one POST changes the stored objects and answers exactly as `Handle` says |
| PartStore.Store.AssembleParts | python/chunked_upload/main.py:38-45 | the assembly loop leaves the objects and the reply that `Assemble` describes: parts appended in index order and removed, up to the first missing one |
| Uploader.ChunkRequest | nextjs/src/app/page.tsx:47-62 | the POST for chunk `i` carries the file name, index `i`, the chunk count and a body of the chunk's length |
| Uploader.ChunkRequestReadable | nextjs/src/app/page.tsx:60 | the service reads the header of every POST the page builds as the chunk's first byte, inclusive last byte and the file size |
| Uploader.ChunkRequests | nextjs/src/app/page.tsx:46-62 | there is one POST per chunk index |
| Uploader.ChunkRequestsNext | nextjs/src/app/page.tsx:46 | the POSTs up to index `k` are those before it followed by the one for `k` |
| Uploader.WithPartsAt | python/chunked_upload/main.py:34-35 | after the first `k` chunks are written, part `j < k` is present and holds chunk `j` |
| Uploader.WithPartsHoldsChunks | python/chunked_upload/main.py:34-35 | after the first `k` chunks are written, parts `0 .. k-1` are present and hold the first `k` slices in order |
| Uploader.WithPartsRemoved | python/chunked_upload/main.py:43 | removing all part keys undoes the writing of any prefix of the parts |
| Uploader.AssembledIsUploaded | python/chunked_upload/main.py:37-45 | once all but the last chunk are written, removing the parts and storing their concatenation followed by the last chunk gives exactly the uploaded file |
| Uploader.InnerChunkStep | python/chunked_upload/main.py:32-49 | a non-final chunk, sent after the chunks before it, adds its own part and answers 206 with its byte range |
| Uploader.LastChunkStep | python/chunked_upload/main.py:32-45 | the last chunk, sent after all the others, leaves exactly the uploaded file and answers 200 |
| Uploader.LastRequestAssembles | python/chunked_upload/main.py:32-45 | any readable request carrying the last chunk, sent after all the others, leaves exactly the uploaded file and answers 200 |
| Uploader.UploadedHoldsFile | python/chunked_upload/main.py:37-45 | after the upload of a non-empty file `storage/<name>` holds exactly the original bytes, no part key of the upload remains, and every other key keeps its value |
| Uploader.SendChunk | nextjs/src/app/page.tsx:47-73 | one iteration: a failing POST throws with storage unchanged; an inner chunk resolves with a non-200 reply and adds its part; the last chunk resolves with 200 and leaves the uploaded file |
| Uploader.FirstFailure | nextjs/src/app/page.tsx:46-73 | the first failing index is at most the count, no index before it fails, and it fails when below the count |
| Uploader.FirstFailureIs | nextjs/src/app/page.tsx:46-73 | an index below which nothing fails, and which fails or equals the count, is the first failing one |
| Uploader.StopOnThrow | nextjs/src/app/page.tsx:70-72 | leaving the loop on a thrown POST ends the upload at the first failing index with the parts before it stored |
| Uploader.StopOnUploaded | nextjs/src/app/page.tsx:64-66 | leaving the loop on a 200 reply ends the upload with the file stored |
| Uploader.ContinueAfterChunk | nextjs/src/app/page.tsx:67-69 | a resolved non-200 reply moves the loop to the next index with one more part stored |
| Uploader.SendAndAccount | nextjs/src/app/page.tsx:47-73 | one pass of the loop body sends the POST for chunk `k`; a throw or a 200 ends the upload as described for `OnDrop`, any other reply leaves storage with one more part and the loop ready for chunk `k+1` |
| Uploader.OnDrop | nextjs/src/app/page.tsx:40-75 | with no file nothing is sent; otherwise the POSTs sent are the first ones in index order, all but the last resolve with a non-200 reply, the loop stops at the first failing index with exactly the earlier parts stored, and for a non-empty file with no failure it ends on a 200 with the file stored and no part left; a zero-byte file sends nothing and leaves storage as it was |

## Left out

- The proxy route `nextjs/src/app/api/upload/route.ts` is not part of this model. As written, the code does not connect the page to the handler: the page posts to `/api/objects` (`nextjs/src/app/page.tsx:57`), the proxy serves `/api/upload` and forwards raw bytes to `/upload` with `X-Chunk-Index`/`X-Total-Chunks` headers (`nextjs/src/app/api/upload/route.ts:34-45`), and the handler is mounted at `/` and reads form fields (`python/chunked_upload/main.py:17-21`). `Uploader.OnDrop` therefore rests on a modelling assumption: each POST the page builds reaches `upload_file` with its form fields and Content-Range header unchanged.
- React rendering, the dropzone hook, react-query polling and the `refetch()` call, the `console.log` and `console.error` calls in the send loop (`nextjs/src/app/page.tsx:65`, `:71`), the icons and the size formatting are not modelled. They are presentation and do not affect storage.
- The real S3 filesystem is replaced by a map, and `await file.read()` by the request's bytes. `print`, the HEAD endpoint and the uvicorn start-up are not modelled.
- The pydantic models in `python/chunked_upload/models.py` are not part of this model. The progress fields are mirrored as the datatype `Progress.ObjectItem`. They are declared `int | None` there; a JSON null reaches the page's arithmetic as 0, so it is modelled as 0 and gives the same cells (`NaN%` for 0/0, `Infinity%` for u/0, `0%` for 0/t).
- Concurrency and async scheduling are not modelled. Each POST is handled to completion before the next one starts, as the page's `await` makes it.
- A network failure is modelled only as a POST that throws before it reaches the service. A POST that changes storage and then fails on the way back is not modelled.
- Floating point is not modelled. The chunk count and the percent are exact integer ceiling divisions, so file sizes above 2^53 bytes are not captured.
- Text.ParseInt: reads only non-empty strings of ASCII digits. Python's `int()` also accepts a sign, surrounding whitespace and underscores; headers using them are treated as unreadable.
- The session states, size checks, single finalisation and delete policies of the wider upload design are not modelled, because this code does not implement them.
