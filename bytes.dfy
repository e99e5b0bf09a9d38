/** Byte strings as they travel between the browser, the API and object storage. */
module Bytes {

  newtype byte = x: int | 0 <= x < 256

  /** The concatenation of `parts` in order. */
  function Flatten(parts: seq<seq<byte>>): seq<byte>
  {
    if |parts| == 0 then [] else Flatten(parts[..|parts| - 1]) + parts[|parts| - 1]
  }

  /** Appending one more part appends its bytes. */
  lemma FlattenSnoc(parts: seq<seq<byte>>, p: seq<byte>)
    ensures Flatten(parts + [p]) == Flatten(parts) + p
  {
    assert (parts + [p])[..|parts|] == parts;
  }

}
