/** Small value types shared by the other modules. */
module Common {

  datatype Option<+T> = None | Some(value: T)

  /** One octet of a file or of an HTTP body. */
  newtype byte = x: int | 0 <= x < 256

  /** The size requested by each `response.read(1024)` of the transfer loop. */
  const ChunkSize: nat := 1024

  /** A non-empty read: an empty read is the end of the stream, never a chunk. */
  type Chunk = c: seq<byte> | 0 < |c| <= ChunkSize witness [0]

  /** `s` ends with `suffix`, as Python's `str.endswith`. */
  predicate EndsWith(s: string, suffix: string)
  {
    |suffix| <= |s| && s[|s| - |suffix|..] == suffix
  }
}
