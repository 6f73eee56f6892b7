# ProyectoBitTorrent core, modelled in Dafny

This project models the core of a small BitTorrent-like file sharing system.

- **Tracker.** It keeps a registry of peers: peer id, advertised address, listed files, active or inactive status, last contact. It answers REGISTER, UPDATE_FILES, GET_PEERS_WITH_FILE, GET_NETWORK_STATUS and PING over one-shot JSON connections. A periodic pass marks peers silent for 30 seconds or more as inactive.
- **Peers.** Each peer registers itself and serves its files in 512 KiB chunks (GET_FILE_INFO, REQUEST_CHUNK). It downloads a file by asking the tracker who has it, learning the size from the first other peer that answers, and fetching chunk after chunk. The chunk to fetch is always derived from the local byte counter. A JSON progress store lets an interrupted download resume.
- **File manager.** It splits files into numbered part files and joins them back.

Every request handler is a pure function: the old state and a decoded request go in, the new state and the reply (if any) come out. The network, the clock and the file system become parameters:

- A request is an `Inbound` value. It is either one of four ways decoding can fail, or a `Message` whose keys may be absent.
- Time is a whole number of seconds.
- A directory is a map from name to bytes.
- A remote peer is a `Peer`: unreachable, a seeder running the model's own handler over its directories, or a fixed reply.
- Each pass of the download loop takes the tracker's list for that pass as an input list. Its order is arbitrary, which covers both dictionary order and `random.shuffle`.

Modules, one file each:

| file | module | models |
|---|---|---|
| wrappers.dfy | `Wrappers` | `Option` |
| chunks.dfy | `Chunks` | `CHUNK_SIZE`, chunk count, chunk index, chunk slices, the read loop |
| part_files.dfy | `PartFiles` | `split_file`, `join_chunks` |
| progress.dfy | `Progress` | `load_progress`, `save_progress`, `get_progress`, `remove_progress` |
| wire.dfy | `Wire` | the decoded request as a handler sees it |
| tracker.dfy | `Tracker` | `handle_peer` and the status pass of `print_status` |
| client.dfy | `Client` | `send_json`, `register_or_update_peer`, `get_peers_with_file`, `get_network_status` |
| seeder.dfy | `Seeder` | `serve_file_handler` |
| download.dfy | `Download` | `get_file_info_from_peer`, `download_chunk_from_peer`, `download_file` |

Choices that follow the code closely:

- A peer's files are a list (`seq`). A name in both the shared and the received directory is listed twice.
- The status pass marks a record inactive when its age is 30 seconds or more; `now - last_seen < 30` keeps its status.
- A request with a missing key gets no reply from the tracker or from the seeder. The `KeyError` reaches the generic handler, which only logs it.
- The download loop appends whatever a peer sends for the chunk holding the counter. `trim` selects the as-written loop (`false`) or a corrected one (`true`); see Findings.

## Model

| member | source | states |
|---|---|---|
| Chunks.ChunkCount | Proyecto_SD_BitTorrent/Peers/peer.py:109 | the chunk count covers the file (`n * CHUNK_SIZE >= size`) with no spare chunk, and is zero exactly for an empty file |
| Chunks.ChunkIndex | Proyecto_SD_BitTorrent/Peers/peer.py:359 | the index derived from the byte counter names the chunk whose byte range contains the counter |
| Chunks.ChunkAt | Proyecto_SD_BitTorrent/Peers/peer.py:135-139 | a seek-and-read returns at most one chunk. It is non-empty exactly for indices below the chunk count, it is the file's bytes at that position, and only the last chunk is short |
| Chunks.PartsAreChunks | Proyecto_SD_BitTorrent/Trackers/file_manager.py:47-54 | the read loop of the splitter yields exactly the chunk-count chunks, the i-th being the chunk at index i |
| Chunks.PartsFlatten | Proyecto_SD_BitTorrent/Trackers/file_manager.py:49 | the successive reads, concatenated, are the file |
| Chunks.PartSizes | Proyecto_SD_BitTorrent/Trackers/file_manager.py:49 | every read but the last returns a full chunk, and the last one is non-empty |
| Chunks.ChunksReassemble | Proyecto_SD_BitTorrent/Peers/peer.py:134-139 | concatenating chunks 0 to count-1 in order gives back the file |
| PartFiles.Basename | Proyecto_SD_BitTorrent/Trackers/file_manager.py:45 | the base name is the suffix of the path after its last '/', and contains no '/' |
| PartFiles.Decimal | Proyecto_SD_BitTorrent/Trackers/file_manager.py:50 | the part number's text is its base-ten numeral: digits only, no leading zero unless it is the single digit 0, one digit exactly below ten, and read back left to right (`PartFiles.Value`) it is the number |
| PartFiles.DecimalInjective | Proyecto_SD_BitTorrent/Trackers/file_manager.py:50 | different part numbers have different decimal texts |
| PartFiles.PartNameInjective | Proyecto_SD_BitTorrent/Trackers/file_manager.py:50 | two parts of the same file never share a name |
| PartFiles.WriteParts | Proyecto_SD_BitTorrent/Trackers/file_manager.py:49-54 | writing parts k onward returns one name per part, numbered from k. Each name holds its part afterwards, and files with other names keep their contents |
| PartFiles.SplitFile | Proyecto_SD_BitTorrent/Trackers/file_manager.py:43-55 | the split returns chunk-count names `base.partI`. Each holds chunk I of the file, and the other files of the output directory are unchanged |
| PartFiles.SplitNamesDistinct | Proyecto_SD_BitTorrent/Trackers/file_manager.py:50-52 | the names a split returns are pairwise different, so no part overwrites another |
| PartFiles.Join | Proyecto_SD_BitTorrent/Trackers/file_manager.py:58-66 | joining names that all exist gives their contents back to back in list order; joining names none of which exist gives the empty file |
| PartFiles.JoinPresent | Proyecto_SD_BitTorrent/Trackers/file_manager.py:58-64 | joining names that all exist writes their contents back to back in list order |
| PartFiles.SplitJoinRoundTrip | Proyecto_SD_BitTorrent/Trackers/file_manager.py:43-66 | joining the names a split returns, from the split's output directory, reproduces the original bytes |
| PartFiles.JoinWithout | Proyecto_SD_BitTorrent/Trackers/file_manager.py:60-66 | with one of several distinct present names removed from the directory, the join skips exactly that part and keeps the rest in order |
| PartFiles.JoinSkipsMissingPart | Proyecto_SD_BitTorrent/Trackers/file_manager.py:58-66 | a part deleted after a split is silently skipped: the join is the other chunks in order |
| Progress.Load | Proyecto_SD_BitTorrent/Trackers/file_manager.py:11-22 | a missing progress file, or one whose text JSON parsing rejects, gives the empty map; a saved map is loaded as it was written |
| Progress.Get | Proyecto_SD_BitTorrent/Trackers/file_manager.py:31-33 | a name without an entry reads 0, and while the store is synced the value read from memory is the one the file on disk records |
| Progress.Save | Proyecto_SD_BitTorrent/Trackers/file_manager.py:24-29 | a save adds or overwrites the name and flushes the whole map, so memory and disk agree |
| Progress.Remove | Proyecto_SD_BitTorrent/Trackers/file_manager.py:35-41 | a removal drops only that name and flushes. An absent name writes nothing and leaves the store as it was |
| Progress.SaveThenGet | Proyecto_SD_BitTorrent/Trackers/file_manager.py:24-33 | a saved offset reads back, and other names read as before |
| Progress.RemoveThenGet | Proyecto_SD_BitTorrent/Trackers/file_manager.py:31-41 | a removed name reads 0, and other names read as before |
| Progress.SaveSurvivesRestart | Proyecto_SD_BitTorrent/Trackers/file_manager.py:11-29 | loading what a save flushed restores the saved store, including the saved offset |
| Seeder.Resolve | Proyecto_SD_BitTorrent/Peers/peer.py:98-105 | a name is found if either directory has it, and the shared copy wins over the received one |
| Seeder.InfoReply | Proyecto_SD_BitTorrent/Peers/peer.py:96-116 | file info is sent exactly when the file is found. Its size is the file's length and its chunk count covers it without a spare chunk; otherwise "File not found" |
| Seeder.ChunkReply | Proyecto_SD_BitTorrent/Peers/peer.py:119-154 | a chunk is sent exactly for an existing file and an index in range whose offset fits a 64-bit signed file offset, and it is that chunk, never empty. An offset outside that range gets the seek's "cannot fit 'int' into an offset-sized integer" error; a negative one within it, the seek's invalid-argument error; one past the end, "Chunk out of range or file too small"; a missing file, "File not found" |
| Seeder.ChunksOfSeekableFileFit | Proyecto_SD_BitTorrent/Peers/peer.py:135-137 | for a file of at most 2^63 bytes every in-range chunk index gives an offset the seek accepts |
| Seeder.Serve | Proyecto_SD_BitTorrent/Peers/peer.py:85-171 | an unparseable request gets "Invalid JSON" and an unknown command gets "Unknown command". Empty, non-text or non-object input and missing keys get no reply |
| Seeder.ServedChunksReassemble | Proyecto_SD_BitTorrent/Peers/peer.py:96-154 | asking a seeder for the info of a file of at most 2^63 bytes, then for chunks 0 to num_chunks-1, and concatenating the payloads gives back its file |
| Seeder.SharedShadowsReceived | Proyecto_SD_BitTorrent/Peers/peer.py:126-130 | a name present in the shared directory is served the same whatever the received directory holds |
| Tracker.Offering | Proyecto_SD_BitTorrent/Trackers/tracker.py:98-103 | a peer is listed for a file exactly when its record lists the file and is active, with the record's address |
| Tracker.Touch | Proyecto_SD_BitTorrent/Trackers/tracker.py:111-116 | PING's update keeps every peer id. A known peer becomes active and seen now with its address and files kept; no other record changes, and an unknown id changes nothing |
| Tracker.Dispatch | Proyecto_SD_BitTorrent/Trackers/tracker.py:60-116 | a reply is sent exactly for REGISTER or UPDATE_FILES with all four keys, GET_PEERS_WITH_FILE with a filename, GET_NETWORK_STATUS, or PING with a peer id. Without a reply the registry is unchanged, no record is removed, and only the two registrations add one, under the sender's id |
| Tracker.Handle | Proyecto_SD_BitTorrent/Trackers/tracker.py:51-126 | a request that gets no reply leaves the registry unchanged, and no request removes a peer |
| Tracker.HandleAsWritten | Proyecto_SD_BitTorrent/Trackers/tracker.py:75-85 | as written, a request either keeps the registry's peer ids or gets a reply |
| Tracker.PartialUpdate | Proyecto_SD_BitTorrent/Trackers/tracker.py:77-80 | the half-applied update writes the ip if present, then the port only if ip and port are both present. Files, status, last contact and every other record stay |
| Tracker.AsWrittenAgreesOtherwise | Proyecto_SD_BitTorrent/Trackers/tracker.py:51-126 | the handler as written and the atomic one agree on every request except UPDATE_FILES for a known peer with a key missing |
| Tracker.PartialUpdateCounterexample | Proyecto_SD_BitTorrent/Trackers/tracker.py:77-80 | as written, an UPDATE_FILES with an ip but no port changes the known peer's ip and sends nothing |
| Tracker.RegisterReplaces | Proyecto_SD_BitTorrent/Trackers/tracker.py:62-73 | REGISTER answers REGISTERED and writes the whole record (advertised address, files, active, now). No other peer changes |
| Tracker.RegisterTwiceKeepsSecondFiles | Proyecto_SD_BitTorrent/Trackers/tracker.py:62-70 | registering twice keeps the second file list only: the record is replaced, not merged |
| Tracker.UpdateFilesActsAsRegister | Proyecto_SD_BitTorrent/Trackers/tracker.py:75-96 | UPDATE_FILES leaves the same registry REGISTER would. It answers FILES_UPDATED for a known peer and REGISTERED for an unknown one |
| Tracker.QueriesAreReadOnly | Proyecto_SD_BitTorrent/Trackers/tracker.py:98-109 | the two queries change nothing. The status reply is the registry and the peer list is exactly the active holders of the file |
| Tracker.PingRefreshes | Proyecto_SD_BitTorrent/Trackers/tracker.py:111-116 | PING always answers PONG. A known peer becomes active and seen now with everything else kept; an unknown id changes nothing |
| Tracker.UnknownRequestsIgnored | Proyecto_SD_BitTorrent/Trackers/tracker.py:54-62 | empty or undecodable requests and commands without a branch get no reply and change nothing |
| Tracker.ContactTimesNeverDecrease | Proyecto_SD_BitTorrent/Trackers/tracker.py:51-116 | with a clock that does not go back, no contact time decreases, none lies in the future, and no record is removed, for the handler as written and the atomic one |
| Tracker.Sweep | Proyecto_SD_BitTorrent/Trackers/tracker.py:25-31 | the status pass keeps every record and every field but the status. Records 30 or more seconds old become inactive, younger ones keep their status, and nobody is activated |
| Tracker.SweptOfferingIsFresh | Proyecto_SD_BitTorrent/Trackers/tracker.py:25-31 | after a status pass, a file query lists only peers heard from within the last 30 seconds |
| Tracker.StalePeerHiddenButListed | Proyecto_SD_BitTorrent/Trackers/tracker.py:25-31 | after a status pass a stale peer is still in the network status, marked inactive, and in no file query |
| Client.SendFrom | Proyecto_SD_BitTorrent/Trackers/network_utils.py:9-43 | from attempt k on, every attempt before the last was a timeout or a refusal. Stopping early means the last attempt was neither, and the result is the last attempt's reply exactly when it decoded |
| Client.SendJson | Proyecto_SD_BitTorrent/Trackers/network_utils.py:8-43 | at most `retries` attempts and, if `retries` is positive, at least one. Another attempt follows only a timeout or a refusal. The result is the decoded reply of the last attempt, or None |
| Client.AllRetriedGivesNone | Proyecto_SD_BitTorrent/Trackers/network_utils.py:37-43 | when every attempt times out or is refused, all attempts are used and the result is None |
| Client.FirstDecisiveAttempt | Proyecto_SD_BitTorrent/Trackers/network_utils.py:9-42 | the exchange stops at the first attempt that is neither a timeout nor a refusal. It returns that attempt's reply if it decoded, and None for any other exception, an empty reply or unparseable JSON |
| Client.AdvertisedIp | Proyecto_SD_BitTorrent/Trackers/network_utils.py:73 | an absent or empty advertised address falls back to the bind address |
| Client.Registration | Proyecto_SD_BitTorrent/Trackers/network_utils.py:73-87 | the command is REGISTER exactly on the initial registration. The message carries the id, the port and the advertised-or-bind address. Its file list holds each name as often as the shared and the received listings together, so duplicates survive |
| Client.Accepted | Proyecto_SD_BitTorrent/Trackers/network_utils.py:89-93 | only a REGISTERED or FILES_UPDATED reply counts as success; no reply, a peer list, a status or a PONG does not |
| Client.PeersOf | Proyecto_SD_BitTorrent/Trackers/network_utils.py:95-104 | the peer list of a list reply; no reply or any other reply gives the empty list |
| Client.StatusOf | Proyecto_SD_BitTorrent/Trackers/network_utils.py:106-112 | the snapshot of a status reply; no reply or any other reply gives the empty map |
| Client.RegisterOrUpdate | Proyecto_SD_BitTorrent/Trackers/network_utils.py:70-93 | registration succeeds exactly when the first attempt within three that is neither a timeout nor a refusal decodes to REGISTERED or FILES_UPDATED |
| Client.TrackerAcceptsRegistration | Proyecto_SD_BitTorrent/Trackers/network_utils.py:70-93 | the tracker accepts every registration message. The new record carries the advertised address, the port and the shared files followed by the received ones |
| Client.HeartbeatSelfHeals | Proyecto_SD_BitTorrent/Trackers/tracker.py:86-96 | after a tracker restart, the next periodic UPDATE_FILES gets REGISTERED and the peer shows as active in the network status |
| Client.PeerQueryRoundTrip | Proyecto_SD_BitTorrent/Trackers/network_utils.py:95-104 | a peer query against the tracker returns exactly the active peers listing the file |
| Client.StatusQueryRoundTrip | Proyecto_SD_BitTorrent/Trackers/network_utils.py:106-112 | a status query against the tracker returns its registry |
| Download.SizeOf | Proyecto_SD_BitTorrent/Peers/peer.py:250-256 | a size is read exactly from a file-info success reply, and it is the reply's file size; an error, a chunk or no reply gives none |
| Download.PayloadOf | Proyecto_SD_BitTorrent/Peers/peer.py:201-204 | a payload is read exactly from a chunk success reply, and it is the reply's bytes; an error, file info or no reply gives none |
| Download.Probe | Proyecto_SD_BitTorrent/Peers/peer.py:288-296 | the size comes from the first listed peer, other than this one, that reports one. No size means none of them did, and this peer is never asked |
| Download.Discover | Proyecto_SD_BitTorrent/Peers/peer.py:282-299 | discovery ends with "nobody listed" exactly for an empty tracker list; otherwise as for the size probe |
| Download.Reconcile | Proyecto_SD_BitTorrent/Peers/peer.py:302-323 | the stored offset is ignored. A local file of the right size ends the download with no progress entry; a shorter one resumes at its size with that size saved; a longer or missing one restarts from zero with an empty file and no entry |
| Download.Others | Proyecto_SD_BitTorrent/Peers/peer.py:340 | the round's list without this peer's own entries and nothing else |
| Download.TryPeers | Proyecto_SD_BitTorrent/Peers/peer.py:353-377 | peers are tried in order and the first non-empty payload is written. Every peer up to it is asked for the same chunk, and if none succeeds nothing changes |
| Download.Append | Proyecto_SD_BitTorrent/Peers/peer.py:367-370 | writing a payload keeps the local file as its prefix with the payload after it, advances the counter by the payload's length and saves exactly that counter, flushed; no other name's progress changes |
| Download.StepWith | Proyecto_SD_BitTorrent/Peers/peer.py:338-379 | a round asks only other peers, always for the chunk holding the counter. Failure changes nothing; a write appends, advances the counter by the bytes appended and saves it. `trim` false is the loop body as written |
| Download.Step | Proyecto_SD_BitTorrent/Peers/peer.py:359-370 | the loop body as written; on a chunk boundary it is the trimmed step |
| Download.ResumeSafeStep | Proyecto_SD_BitTorrent/Peers/peer.py:359-370 | the corrected loop body, appending only the bytes at and after the counter: a round changes the state exactly when it writes, and a write only extends the local file and saves the new counter |
| Download.HonestGot | Proyecto_SD_BitTorrent/Peers/peer.py:359-366 | from an honest peer, a chunk request at an aligned counter (or with trimming) yields the file's next bytes up to the chunk's end, and a peer holding the file always yields some |
| Download.TryPeersKeepsPrefix | Proyecto_SD_BitTorrent/Peers/peer.py:353-372 | when every peer's payload continues the file, the local file stays a prefix whoever wins, ending at the next chunk boundary or the end |
| Download.StepWithKeepsPrefix | Proyecto_SD_BitTorrent/Peers/peer.py:338-379 | a round among honest peers keeps the local file a prefix of the remote one and writes whenever some other peer holds the file |
| Download.StepKeepsAlignedPrefix | Proyecto_SD_BitTorrent/Peers/peer.py:359-369 | as written, a round started on a chunk boundary keeps the prefix and ends on a boundary or at the end |
| Download.ResumeSafeStepKeepsPrefix | Proyecto_SD_BitTorrent/Peers/peer.py:359-369 | with the payload trimmed to the counter, a round keeps the prefix from any counter |
| Download.StepsAgreeWhenAligned | Proyecto_SD_BitTorrent/Peers/peer.py:359-369 | on a chunk boundary the as-written and the trimmed round are identical |
| Download.UnalignedResumeCorrupts | Proyecto_SD_BitTorrent/Peers/peer.py:359-369 | as written, resuming at byte 10 appends chunk 0 whole, so the local file stops being a prefix of the remote one |
| Download.UnalignedDownloadCorrupts | Proyecto_SD_BitTorrent/Peers/peer.py:302-387 | as written, a whole download resumed from the first 10 bytes of a two-chunk file, with an honest seeder, reports completion with 10 bytes too many; trimmed, the same download ends with the file |
| Download.Run | Proyecto_SD_BitTorrent/Peers/peer.py:338-379 | the transfer loop (as written when `trim` is false) only appends. It keeps the file length equal to the counter and the stored progress equal to it, and does nothing once the counter reaches the size |
| Download.RunKeepsPrefix | Proyecto_SD_BitTorrent/Peers/peer.py:338-379 | among honest peers the loop's local file stays a prefix of the remote file: as written from a counter on a chunk boundary, which every later counter then is too; trimmed from any counter |
| Download.RunsAgreeWhenAligned | Proyecto_SD_BitTorrent/Peers/peer.py:338-379 | among honest peers, from a chunk boundary, the loop as written and the trimmed loop end in the same state |
| Download.RunCompletes | Proyecto_SD_BitTorrent/Peers/peer.py:338-379 | with another holder in every round and one round per remaining chunk, the counter reaches the size: as written from a chunk boundary, trimmed from any counter |
| Download.DownloadFile | Proyecto_SD_BitTorrent/Peers/peer.py:274-387 | `download_file`, as written when `trim` is false. No listed peer, or no size reported, returns before touching the progress file or the local file. Success removes the progress entry and re-announces the files; an unfinished run keeps the stored offset equal to the local size |
| Download.Retrieve | Proyecto_SD_BitTorrent/Peers/peer.py:302-387 | after discovery: "already complete" exactly for a local file of the remote size, re-announcement exactly on completion, and no progress entry left when done |
| Download.HonestPeersReportFileSize | Proyecto_SD_BitTorrent/Peers/peer.py:288-296 | honest peers report the true size, and a listed holder guarantees that a size is reported |
| Download.ReconcileStartsOnPrefix | Proyecto_SD_BitTorrent/Peers/peer.py:302-333 | a consistent local file reconciled against the true size starts the transfer on a prefix of the remote file, and on a chunk boundary when the local file was cut on one |
| Download.HonestDownloadIsPrefix | Proyecto_SD_BitTorrent/Peers/peer.py:274-387 | among honest peers a download never leaves a local file that disagrees with the remote one, and a finished one holds exactly the remote file: as written from a local file cut on a chunk boundary (or none), trimmed from any consistent one |
| Download.HonestDownloadCompletes | Proyecto_SD_BitTorrent/Peers/peer.py:274-387 | with a holder listed at the start and in every round, and a round per chunk, the download finishes with the remote file, no progress entry and a re-announcement: as written from a local file cut on a chunk boundary (or none), trimmed from any consistent one |
| Download.DownloadsAgreeWhenAligned | Proyecto_SD_BitTorrent/Peers/peer.py:274-387 | among honest peers, with a local file cut on a chunk boundary or none, the download as written and the trimmed one end identically |
| Download.DiscoverLargest | Proyecto_SD_BitTorrent/Peers/peer.py:288-299 | the corrected discovery asks every other listed peer and keeps the largest reported size; no size means no peer reported one |
| Download.DownloadFileFixed | Proyecto_SD_BitTorrent/Peers/peer.py:274-387 | `download_file` with the corrected discovery and the trimmed loop: the same early exits, removal of the progress entry and re-announcement |
| Download.LargestReportIsFileSize | Proyecto_SD_BitTorrent/Peers/peer.py:288-296 | among peers holding prefixes of the file, with one holding all of it listed, the corrected discovery learns the file's size |
| Download.PartialGot | Proyecto_SD_BitTorrent/Peers/peer.py:359-366 | trimmed, a chunk from a peer holding a prefix of the file is the file's bytes from the counter on, however short |
| Download.PartialStepKeepsPrefix | Proyecto_SD_BitTorrent/Peers/peer.py:353-372 | trimmed, a round among peers holding prefixes keeps the local file a prefix and writes whenever another peer holds the whole file |
| Download.PartialRunKeepsPrefix | Proyecto_SD_BitTorrent/Peers/peer.py:338-379 | trimmed, the loop among peers holding prefixes keeps the local file a prefix from any counter |
| Download.PartialRunCompletes | Proyecto_SD_BitTorrent/Peers/peer.py:338-379 | trimmed, with a holder of the whole file in every round, the loop among peers holding prefixes reaches the size within one round per missing byte |
| Download.FixedDownloadIsPrefix | Proyecto_SD_BitTorrent/Peers/peer.py:274-387 | the corrected download among peers holding prefixes, with a holder listed at the start, never leaves a local file that disagrees with the remote one, and a finished one holds exactly the remote file |
| Download.FixedDownloadCompletes | Proyecto_SD_BitTorrent/Peers/peer.py:274-387 | with a holder listed at the start and in every round, and a round per byte, the corrected download finishes with the remote file, no progress entry and a re-announcement |
| Download.PartialPeerCorrupts | Proyecto_SD_BitTorrent/Peers/peer.py:359-370 | as written, a download from nothing whose second round is won by a peer holding the first 524288+5 bytes completes with 2·524288+5 bytes |
| Download.PartialPeerTruncates | Proyecto_SD_BitTorrent/Peers/peer.py:288-296 | as written, trimmed or not, a peer holding only the first chunk and listed first makes the download complete with that chunk alone; the corrected download ends with the file |

## Findings

| source | as written | input that shows it | evidently intended | confidence | as-written member | corrected member |
|---|---|---|---|---|---|---|
| Proyecto_SD_BitTorrent/Trackers/tracker.py:77-85 | UPDATE_FILES for a known peer assigns ip, port and files one key at a time. A missing key raises after the earlier keys were written, and no reply is sent | a registered peer `p` and `{"command": "UPDATE_FILES", "peer_id": "p", "ip": "10.0.0.2"}`: the ip changes, the port and files stay old, and there is no reply (`Tracker.PartialUpdateCounterexample`) | a rejected request leaves the record as it was, as REGISTER and the unknown-peer branch do by building the record first | medium, not executed | Tracker.HandleAsWritten | Tracker.Handle |
| Proyecto_SD_BitTorrent/Peers/peer.py:359-369 | the chunk index is the counter divided by the chunk size, and the whole chunk is appended at the counter | a local file holding the first 10 bytes of a two-chunk remote file: chunk 0 is appended whole after byte 10, so bytes 0-9 appear twice (`Download.UnalignedResumeCorrupts`); the whole download then reports completion with 2·524288+10 bytes (`Download.UnalignedDownloadCorrupts`) | only the bytes from the counter on are appended, so a resumed file stays a prefix of the remote one (`Download.ResumeSafeStepKeepsPrefix`) | medium, not executed | Download.Step | Download.ResumeSafeStep |
| Proyecto_SD_BitTorrent/Peers/peer.py:288-296 | the size is taken from the first listed peer that reports one. A peer partway through its own download of the file advertises it and reports the size it has so far | the listed peers are one holding only the first chunk of a two-chunk file, then one holding all of it: the download completes with the first chunk alone (`Download.PartialPeerTruncates`) | the size of the whole file, which the largest reported size is when a holder is listed (`Download.LargestReportIsFileSize`, `Download.FixedDownloadCompletes`) | medium, not executed | Download.DownloadFile | Download.DownloadFileFixed |
| Proyecto_SD_BitTorrent/Peers/peer.py:359-370 | a short chunk from a peer partway through its own download is appended and moves the counter off a chunk boundary. Later rounds then append whole chunks at that counter | from no local file, rounds listing a holder, then a peer holding the first 524288+5 bytes, then the holder: the download completes with 2·524288+5 bytes (`Download.PartialPeerCorrupts`) | only the bytes from the counter on are appended, so the local file stays a prefix whichever peers answer (`Download.PartialRunKeepsPrefix`, `Download.FixedDownloadIsPrefix`) | medium, not executed | Download.Step | Download.ResumeSafeStep |

The tracker's other members use the atomic `Tracker.Handle`. The download is modelled both ways: `Download.DownloadFile` with `trim` false is the code as written, and with `trim` true it is the corrected download. For the code as written, the prefix and completion lemmas need honest peers and a local file cut on a chunk boundary, or no local file. `Download.DownloadsAgreeWhenAligned` shows that under those conditions the two versions end identically. An honest peer holds the whole file or none of it, so honesty excludes an ordinary peer partway through its own download of the same file: the partial file sits in its received directory, its heartbeat advertises it, and its seeder serves it at its current size. Such a peer can cut the discovered size short or send a short chunk; the last two Findings rows show both. `Download.DownloadFileFixed` takes the largest reported size and trims each chunk, and its lemmas hold among peers that each hold any prefix of the file.

## Left out

- Sockets, accept loops, threads, timeouts and sleeps are not modelled. Each request is one atomic transition, and the tracker's unsynchronised concurrent mutation of its registry is not modelled.
- Bytes-to-request decoding is abstracted. The single 4096-byte `recv`, UTF-8 decoding and JSON parsing become the `Inbound` cases, so a request truncated by the 4096-byte read is one of `NotJson` or `NotText`.
- Key values are typed, so a non-integer `port` or `chunk_index`, or a non-list `files`, is not modelled.
- Base64 encoding of chunk payloads is modelled as the identity.
- Time is whole seconds. The `%Y-%m-%d %H:%M:%S` formatting and parsing are not modelled; they truncate to seconds, as the model does.
- Some persistence is left out: `save_log` and the tracker's startup reload of `tracker_log.json` (whose statuses stay stale until the next status pass), and the console output of `print_status`.
- MD5 hashing and `check_integrity` are not modelled: they are a separate check, not used by the download path.
- Peer start-up is left out: address discovery, console input, the menu, and the listener and heartbeat threads. Each heartbeat is one registration message (`Client.HeartbeatSelfHeals`).
- Directory listings are not modelled: the shared and received file names are given as lists.
- `random.shuffle` and dictionary order are not modelled: the candidate lists are arbitrary.
- Download.DownloadFile: the source loops until the file is complete. The model runs a finite list of rounds, and its `Incomplete` outcome stands only for "the rounds ran out". A round with no other peer, or with every attempt failing, changes nothing, as the source's retry after a sleep does.
- PartFiles.Join: names are resolved in the given directory. In the source, `split_file` returns bare names and `join_chunks` resolves them against the working directory, so the round trip holds when that is the output directory.
- Tracker.Offering: the reply is a set. Its order, the registry's insertion order, is not modelled.
- Seeder.ChunkReply: file system read errors other than the two seek errors are not modelled.
- Seeder.Resolve: names are opaque keys of the two directory maps. `os.path.join` semantics are not modelled: the empty name (which joins to the directory itself, so file info reports the directory's size), absolute names and `..` components that escape both directories.
- Progress.Load: a progress file that is not UTF-8 text, whose `UnicodeDecodeError` escapes `load_progress`, is not modelled; nor is valid JSON that is not an object of integers, which the source loads as it is so that a later `get_progress` or `save_progress` fails. The disk holds nothing, text that JSON parsing rejects, or a saved map.
- Client.StatusOf: the source returns any JSON object reply as the status. The tracker only answers a status query with its registry, and the typed reply gives the empty map for any other reply.
- Download.HonestPeer: a peer partway through its own download of the file, which serves the prefix it has so far, is not honest. The as-written lemmas (`Download.HonestDownloadIsPrefix`, `Download.HonestDownloadCompletes`, `Download.RunCompletes` and the other `Honest*` and `Run*` lemmas) say nothing about downloads among such peers; the corrected download's lemmas cover them.
- Download.Holds: a seeder counts as holding the file only when the file has at most 2^63 bytes, since beyond that its chunks cannot be sought. No real file system holds a larger file.
- Every handler here is a function of its inputs, so "a repeated request gets the same answer" holds by construction and has no lemma of its own.
- Client.SendJson: the attempt outcomes are an input list, and how a timeout or refusal arises is not modelled.
