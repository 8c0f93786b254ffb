/** The four object types, the frozen constants they are bounded by, and the
    failures the store reports. */
module Model {
  import opened ByteStrings

  /** What the Python code raises. `OutOfRange` stands for `ValueError`: a value
      its fixed-width field or its own type cannot hold. */
  datatype Error =
    | Malformed
    | NotCanonical
    | UnsupportedVersion
    | OutOfRange
    | NotFound
    | Corrupt
    | InvalidRequest

  datatype Result<+T> = Ok(value: T) | Err(error: Error) {
    predicate IsFailure() {
      Err?
    }
    function PropagateFailure<U>(): Result<U>
      requires Err?
    {
      Err(error)
    }
    function Extract(): T
      requires Ok?
    {
      value
    }
  }

  datatype Outcome = Pass | Fail(error: Error) {
    predicate IsFailure() {
      Fail?
    }
    function PropagateFailure<U>(): Result<U>
      requires Fail?
    {
      Err(error)
    }
  }

  datatype Option<+T> = None | Some(value: T)

  /** The name of an immutable object. On the wire a digest is 32 bytes; the
      structures built over names need only that names can be compared. */
  datatype Name = Name(digest: Bytes)

  datatype EntryKind = TreeKind | BlobKind | SymlinkKind | ConflictKind

  /** One child of a blob node, with the byte span it covers. */
  datatype BlobEntry = BlobEntry(target: Name, size: int)

  /** A directory entry in a leaf node, a routing key in an interior one. */
  datatype TreeEntry = TreeEntry(name: Bytes, kind: EntryKind, target: Name, mode: int, size: int)

  /** Text fields hold the UTF-8 bytes of the string they stand for. */
  datatype Object =
    | Chunk(data: Bytes)
    | Blob(level: int, children: seq<BlobEntry>)
    | Tree(level: int, entries: seq<TreeEntry>)
    | Commit(tree: Name, parents: seq<Name>, changeId: Bytes, author: Bytes, committer: Bytes,
             timestampUs: int, message: Bytes, metadata: seq<(Bytes, Bytes)>)

  const DIGEST_BYTES: nat := 32
  const CHANGE_ID_BYTES: nat := 16
  const FORMAT_VERSION: Byte := 1
  const HEADER_BYTES: nat := 2
  const MODE_REGULAR := 0x1A4  // 0o644
  const MODE_EXEC := 0x1ED     // 0o755
  const MAX_ENTRY_NAME_BYTES: nat := 255
  const MAX_CHUNK_BYTES: nat := 4 * 1024 * 1024
  const MAX_NODE_BYTES: nat := 128 * 1024
}
