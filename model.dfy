/**
 * The records file/file.go works with: the collected file entry, the
 * collection configuration and the planned operations of the copy manifest.
 */
module Model {
  import opened Dates

  /** An entry found by the walk: its path and the modification time Lstat reported. */
  datatype FileInfo = FileInfo(path: string, creationDate: Date)

  /** CollectFilesConfig: case-insensitive excluded-directory substrings and the extension allow-list. */
  datatype CollectFilesConfig = CollectFilesConfig(excludedDirs: seq<string>, supportedExtensions: seq<string>)

  /** MoveOp ("MOVE") and CopyOp ("COPY"). */
  datatype OpType = Move | Copy

  /** One planned operation of the manifest. */
  datatype FileOperation = FileOperation(from: string, to: string, opType: OpType)
}
