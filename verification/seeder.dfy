/**
  The upload side of the peer protocol (`serve_file_handler`): one decoded request
  and the peer's two directories go in, at most one status-tagged reply comes out.
  Chunk payloads travel base64-encoded; the encoding is left as the identity here.
 */
module Seeder {
  import opened Wrappers
  import opened Chunks
  import opened Wire

  datatype SeederReply =
    | FileInfo(fileSize: nat, numChunks: nat) // {"status": "success", "file_size", "num_chunks"}
    | ChunkData(chunk: Bytes)                  // {"status": "success", "chunk"}
    | Failure(message: string)                 // {"status": "error", "message"}

  const FILE_NOT_FOUND := "File not found"
  const OUT_OF_RANGE := "Chunk out of range or file too small"
  const UNKNOWN_COMMAND := "Unknown command"
  const INVALID_JSON := "Invalid JSON"
  /** What `f.seek` on a negative offset reports, prefixed as the handler does. */
  const READ_FAILED := "Error al leer/enviar chunk: [Errno 22] Invalid argument"
  /** What `f.seek` reports for an offset outside the 64-bit signed file offset, prefixed as the handler does. */
  const SEEK_OVERFLOW := "Error al leer/enviar chunk: cannot fit 'int' into an offset-sized integer"

  /** 2^63: file offsets are 64-bit signed integers. */
  const OFFSET_LIMIT: int := 0x8000_0000_0000_0000

  /** `chunk_index * CHUNK_SIZE` is a file offset `seek` accepts. */
  predicate SeekFits(index: int) {
    -OFFSET_LIMIT <= index * CHUNK_SIZE < OFFSET_LIMIT
  }

  /** Every chunk of a file that fits the offset range can be sought. */
  lemma ChunksOfSeekableFileFit(size: nat, index: nat)
    requires size <= OFFSET_LIMIT && index < ChunkCount(size)
    ensures SeekFits(index)
  {
    assert index * CHUNK_SIZE <= (ChunkCount(size) - 1) * CHUNK_SIZE;
  }

  /** The file a name refers to: the shared directory wins over the received one. */
  function Resolve(shared: Dir, received: Dir, name: string): (r: Option<Bytes>)
    ensures r.Some? <==> name in shared || name in received
    ensures name in shared ==> r == Some(shared[name])
    ensures name !in shared && name in received ==> r == Some(received[name])
  {
    if name in shared then Some(shared[name])
    else if name in received then Some(received[name])
    else None
  }

  /** GET_FILE_INFO. */
  function InfoReply(shared: Dir, received: Dir, name: string): (r: SeederReply)
    ensures r.FileInfo? <==> name in shared || name in received
    ensures !r.FileInfo? ==> r == Failure(FILE_NOT_FOUND)
    ensures r.FileInfo? ==> r.fileSize == |Resolve(shared, received, name).value|
    ensures r.FileInfo? ==> r.numChunks * CHUNK_SIZE >= r.fileSize
    ensures r.FileInfo? ==> r.numChunks == 0 || (r.numChunks - 1) * CHUNK_SIZE < r.fileSize
  {
    match Resolve(shared, received, name)
    case None => Failure(FILE_NOT_FOUND)
    case Some(data) => FileInfo(|data|, ChunkCount(|data|))
  }

  /**
    REQUEST_CHUNK: a success always carries bytes; past the end is an error, never an
    empty success. The seek comes first, so an offset it cannot represent or a negative
    one fails before anything is read.
   */
  function ChunkReply(shared: Dir, received: Dir, name: string, index: int): (r: SeederReply)
    ensures !r.FileInfo?
    ensures Resolve(shared, received, name).None? ==> r == Failure(FILE_NOT_FOUND)
    ensures r.ChunkData? <==>
      Resolve(shared, received, name).Some? && SeekFits(index)
      && 0 <= index < ChunkCount(|Resolve(shared, received, name).value|)
    ensures r.ChunkData? ==> |r.chunk| > 0 && r.chunk == ChunkAt(Resolve(shared, received, name).value, index)
    ensures Resolve(shared, received, name).Some? && !SeekFits(index) ==> r == Failure(SEEK_OVERFLOW)
    ensures Resolve(shared, received, name).Some? && SeekFits(index) && index < 0 ==> r == Failure(READ_FAILED)
    ensures Resolve(shared, received, name).Some? && SeekFits(index)
            && index >= ChunkCount(|Resolve(shared, received, name).value|)
      ==> r == Failure(OUT_OF_RANGE)
  {
    match Resolve(shared, received, name)
    case None => Failure(FILE_NOT_FOUND)
    case Some(data) =>
      if !SeekFits(index) then Failure(SEEK_OVERFLOW)
      else if index < 0 then Failure(READ_FAILED)
      else
        var chunk := ChunkAt(data, index);
        if |chunk| > 0 then ChunkData(chunk) else Failure(OUT_OF_RANGE)
  }

  /**
    `serve_file_handler`. No reply when nothing arrives, the bytes are not text,
    the JSON is not an object or a key is missing (the generic handler only logs);
    "Invalid JSON" for unparseable text, "Unknown command" for any other command.
   */
  function Serve(shared: Dir, received: Dir, inbound: Inbound): (r: Option<SeederReply>)
    ensures inbound.NotJson? ==> r == Some(Failure(INVALID_JSON))
    ensures inbound.NoData? || inbound.NotText? || inbound.NotAnObject? ==> r.None?
    ensures inbound.Object? && inbound.msg.command !in {Some("GET_FILE_INFO"), Some("REQUEST_CHUNK")}
      ==> r == Some(Failure(UNKNOWN_COMMAND))
    ensures inbound.Object? && inbound.msg.command == Some("GET_FILE_INFO")
      ==> (r.Some? <==> inbound.msg.filename.Some?)
    ensures inbound.Object? && inbound.msg.command == Some("REQUEST_CHUNK")
      ==> (r.Some? <==> inbound.msg.filename.Some? && inbound.msg.chunkIndex.Some?)
  {
    match inbound
    case NotJson => Some(Failure(INVALID_JSON))
    case Object(m) =>
      if m.command == Some("GET_FILE_INFO") then
        if m.filename.None? then None
        else Some(InfoReply(shared, received, m.filename.value))
      else if m.command == Some("REQUEST_CHUNK") then
        if m.filename.None? || m.chunkIndex.None? then None
        else Some(ChunkReply(shared, received, m.filename.value, m.chunkIndex.value))
      else Some(Failure(UNKNOWN_COMMAND))
    case _ => None
  }

  function InfoRequest(name: string): Inbound {
    Object(Blank.(command := Some("GET_FILE_INFO"), filename := Some(name)))
  }

  function ChunkRequest(name: string, index: int): Inbound {
    Object(Blank.(command := Some("REQUEST_CHUNK"), filename := Some(name), chunkIndex := Some(index)))
  }

  /**
    The protocol round trip: asking for the file's info, then for chunks
    0 .. num_chunks-1 and concatenating the payloads in order, gives back the file.
   */
  lemma ServedChunksReassemble(shared: Dir, received: Dir, name: string)
    requires name in shared || name in received
    requires |Resolve(shared, received, name).value| <= OFFSET_LIMIT
    ensures var info := Serve(shared, received, InfoRequest(name)).value;
      var data := Resolve(shared, received, name).value;
      info.FileInfo? && info.fileSize == |data|
      && (forall i :: 0 <= i < info.numChunks ==> Serve(shared, received, ChunkRequest(name, i)).value.ChunkData?)
      && Flatten(seq(info.numChunks, i requires 0 <= i < info.numChunks =>
                       Serve(shared, received, ChunkRequest(name, i)).value.chunk)) == data
  {
    var data := Resolve(shared, received, name).value;
    var n := ChunkCount(|data|);
    ChunksReassemble(data);
    forall i | 0 <= i < n
      ensures SeekFits(i)
    {
      ChunksOfSeekableFileFit(|data|, i);
    }
    assert seq(n, i requires 0 <= i < n => Serve(shared, received, ChunkRequest(name, i)).value.chunk)
        == seq(n, i requires 0 <= i => ChunkAt(data, i));
  }

  /** A name held in the shared directory is served from there whatever the received one holds. */
  lemma SharedShadowsReceived(shared: Dir, received: Dir, other: Dir, inbound: Inbound)
    requires inbound.Object? && inbound.msg.filename.Some? && inbound.msg.filename.value in shared
    ensures Serve(shared, received, inbound) == Serve(shared, other, inbound)
  {
  }
}
