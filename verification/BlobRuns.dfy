/** Runs of calls on the two blob stores. */
module BlobRuns {
  import M = MemoryBlobStore
  import opened MemoryBlobStore
  import opened ObjectKeys
  import opened S3BlobStore
  import opened Utf8

  /** Random identifiers and the results of listings are part of the call. */
  datatype Call =
    | Begin(workspaceId: string, maximumBytes: int, id: string)
    | Append(staging: StagingHandle, content: seq<byte>)
    | Commit(staging: StagingHandle, digest: string, byteLength: int)
    | Abort(staging: StagingHandle)
    | Write(blob: BlobHandle, workspaceId: string, text: seq<byte>)
    | Delete(blob: BlobHandle, workspaceId: string)
    | Open(blob: BlobHandle, workspaceId: string)
    | Cleanup(keys: seq<string>, uploads: seq<(string, nat)>)

  function S3Call(c: Configuration, sha256: seq<byte> -> string, s: S3State, call: Call): (r: (S3State, Reply))
    requires c.multipartPartSizeBytes > 0 && WellBuffered(c, s)
    ensures WellBuffered(c, r.0)
  {
    match call
    case Begin(w, maximumBytes, id) => BeginStep(c, s, w, maximumBytes, id)
    case Append(handle, content) => AppendStep(c, s, handle, content)
    case Commit(handle, digest, byteLength) => CommitStep(c, sha256, s, handle, digest, byteLength)
    case Abort(handle) => AbortStep(c, s, handle)
    case Write(handle, w, text) => WriteStep(c, s, handle, w, text)
    case Delete(handle, w) => DeleteStep(c, s, handle, w)
    case Open(handle, w) => OpenStep(c, s, handle, w)
    case Cleanup(keys, uploads) => CleanupStep(s, keys, uploads)
  }

  /** The in-memory store has nothing to clean up. */
  function MemoryCall(c: Configuration, sha256: seq<byte> -> string, m: State, call: Call): (State, Reply) {
    match call
    case Begin(w, maximumBytes, id) => M.Begin(c, m, w, maximumBytes, id)
    case Append(handle, content) => M.Append(m, handle, content)
    case Commit(handle, digest, byteLength) => M.Commit(c, sha256, m, handle, digest, byteLength)
    case Abort(handle) => M.Abort(m, handle)
    case Write(handle, w, text) => M.WriteText(c, m, handle, w, text)
    case Delete(handle, w) => M.Delete(c, m, handle, w)
    case Open(handle, w) => M.Open(c, m, handle, w)
    case Cleanup(_, _) => (m, Done)
  }

  function S3Run(c: Configuration, sha256: seq<byte> -> string, s: S3State, calls: seq<Call>): (r: S3State)
    requires c.multipartPartSizeBytes > 0 && WellBuffered(c, s)
    ensures WellBuffered(c, r)
  {
    if calls == [] then s else S3Call(c, sha256, S3Run(c, sha256, s, calls[..|calls| - 1]), calls[|calls| - 1]).0
  }

  function MemoryRun(c: Configuration, sha256: seq<byte> -> string, m: State, calls: seq<Call>): State {
    if calls == [] then m
    else MemoryCall(c, sha256, MemoryRun(c, sha256, m, calls[..|calls| - 1]), calls[|calls| - 1]).0
  }
}
