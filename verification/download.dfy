/**
  The leecher side (`download_file`): discover the size, reconcile with the local
  file, then fetch one chunk per round, always at the index derived from the byte
  counter, until the counter reaches the size. Peers' answers are inputs: each
  candidate is either unreachable, runs the seeder over its own directories, or
  sends a fixed reply.
 */
module Download {
  import opened Wrappers
  import opened Chunks
  import Progress
  import opened Wire
  import opened Tracker
  import opened Seeder

  /** This peer's advertised address and port; tracker entries equal to it are skipped. */
  datatype Endpoint = Endpoint(ip: string, port: int)

  /** How a remote peer answers a request. */
  datatype Peer =
    | Unreachable                         // timeout, refusal, reset, empty or garbled reply
    | Seeding(shared: Dir, received: Dir) // runs the seeder over these directories
    | Replying(reply: SeederReply)        // sends this whatever it is asked

  /** A tracker entry together with how that peer behaves. */
  datatype Candidate = Candidate(entry: PeerEntry, peer: Peer)

  predicate IsSelf(e: PeerEntry, me: Endpoint) {
    e.ip == me.ip && e.port == me.port
  }

  function Ask(p: Peer, request: Inbound): Option<SeederReply> {
    match p
    case Unreachable => None
    case Seeding(sh, rc) => Serve(sh, rc, request)
    case Replying(r) => Some(r)
  }

  /** `get_file_info_from_peer` followed by the `'file_size' in file_info` test. */
  function SizeOf(reply: Option<SeederReply>): (size: Option<nat>)
    ensures size.Some? <==> reply.Some? && reply.value.FileInfo?
    ensures size.Some? ==> size.value == reply.value.fileSize
  {
    if reply.Some? && reply.value.FileInfo? then Some(reply.value.fileSize) else None
  }

  /** `download_chunk_from_peer`: the bytes of a success reply that carries a chunk. */
  function PayloadOf(reply: Option<SeederReply>): (payload: Option<Bytes>)
    ensures payload.Some? <==> reply.Some? && reply.value.ChunkData?
    ensures payload.Some? ==> payload.value == reply.value.chunk
  {
    if reply.Some? && reply.value.ChunkData? then Some(reply.value.chunk) else None
  }

  // ---------------------------------------------------------------- discovery

  datatype Discovery = NobodyListed | NoSizeReported | SizeReported(size: nat)

  /** The outcome and the peers asked for file info, in order. */
  datatype Discovered = Discovered(result: Discovery, asked: seq<PeerEntry>)

  /** The size a candidate reports; self is never asked and reports nothing. */
  function ReportedSize(name: string, me: Endpoint, c: Candidate): Option<nat> {
    if IsSelf(c.entry, me) then None else SizeOf(Ask(c.peer, InfoRequest(name)))
  }

  /** Candidate i is the first from k on to report a size. */
  predicate FirstReporter(name: string, me: Endpoint, cands: seq<Candidate>, k: nat, i: nat)
    requires k <= i < |cands|
  {
    ReportedSize(name, me, cands[i]).Some?
    && forall j :: k <= j < i ==> ReportedSize(name, me, cands[j]).None?
  }

  /** The `for peer_info in peers_for_info_and_download` loop, from candidate k on. */
  function Probe(name: string, me: Endpoint, cands: seq<Candidate>, k: nat): (d: Discovered)
    requires k <= |cands|
    ensures !d.result.NobodyListed?
    ensures forall e :: e in d.asked ==> !IsSelf(e, me)
    ensures d.result.SizeReported? ==>
      exists i :: k <= i < |cands| && FirstReporter(name, me, cands, k, i)
                  && ReportedSize(name, me, cands[i]) == Some(d.result.size)
    ensures d.result.NoSizeReported? ==>
      forall i :: k <= i < |cands| ==> ReportedSize(name, me, cands[i]).None?
    decreases |cands| - k
  {
    if k == |cands| then Discovered(NoSizeReported, [])
    else if IsSelf(cands[k].entry, me) then Probe(name, me, cands, k + 1)
    else match ReportedSize(name, me, cands[k])
      case Some(s) => Discovered(SizeReported(s), [cands[k].entry])
      case None =>
        var rest := Probe(name, me, cands, k + 1);
        rest.(asked := [cands[k].entry] + rest.asked)
  }

  /** Size discovery: no listed peer at all, or no non-self peer reporting a size, ends the download. */
  function Discover(name: string, me: Endpoint, listed: seq<Candidate>): (d: Discovered)
    ensures d.result.NobodyListed? <==> |listed| == 0
    ensures forall e :: e in d.asked ==> !IsSelf(e, me)
    ensures d.result.SizeReported? ==>
      exists i :: 0 <= i < |listed| && FirstReporter(name, me, listed, 0, i)
                  && ReportedSize(name, me, listed[i]) == Some(d.result.size)
    ensures d.result.NoSizeReported? ==>
      forall i :: 0 <= i < |listed| ==> ReportedSize(name, me, listed[i]).None?
  {
    if |listed| == 0 then Discovered(NobodyListed, []) else Probe(name, me, listed, 0)
  }

  // ---------------------------------------------------------------- reconcile

  /** The byte counter, the local file's contents and the progress store. */
  datatype Transfer = Transfer(offset: nat, local: Bytes, store: Progress.Store)

  datatype Plan = UpToDate(store: Progress.Store) | Fetch(from: Transfer)

  /**
    Compare the local file with the remote size. Whatever the store holds for the name
    is ignored: the resume point is the local file's size.
    Equal: drop the progress entry and stop. Smaller: resume at the local size and save it.
    Larger, or no local file: start from zero with no progress entry and an empty file.
   */
  function Reconcile(name: string, size: nat, local: Option<Bytes>, store: Progress.Store): (p: Plan)
    ensures p.UpToDate? <==> local.Some? && |local.value| == size
    ensures p.UpToDate? ==> name !in p.store.entries
    ensures p.Fetch? ==> p.from.offset == (if local.Some? && |local.value| < size then |local.value| else 0)
    ensures p.Fetch? ==> p.from.local == (if local.Some? && |local.value| < size then local.value else [])
    ensures p.Fetch? ==> p.from.offset <= size && |p.from.local| == p.from.offset
    ensures p.Fetch? ==> Progress.Get(p.from.store, name) == p.from.offset
    ensures p.Fetch? && (local.None? || |local.value| > size) ==> name !in p.from.store.entries
  {
    match local
    case None => Fetch(Transfer(0, [], Progress.Remove(store, name)))
    case Some(bytes) =>
      if |bytes| == size then UpToDate(Progress.Remove(store, name))
      else if |bytes| < size then Fetch(Transfer(|bytes|, bytes, Progress.Save(store, name, |bytes|)))
      else Fetch(Transfer(0, [], Progress.Remove(store, name)))
  }

  // ---------------------------------------------------------------- transfer step

  datatype Request = Request(to: PeerEntry, chunkIndex: nat)

  datatype StepKind = NoOtherPeers | AllFailed | Wrote

  /** The state after one round and the chunk requests it sent, in order. */
  datatype Stepped = Stepped(kind: StepKind, next: Transfer, requests: seq<Request>)

  /** The tracker's list without this peer's own entries, order kept. */
  function Others(round: seq<Candidate>, me: Endpoint): (others: seq<Candidate>)
    ensures forall c :: c in others <==> c in round && !IsSelf(c.entry, me)
    ensures forall i :: 0 <= i < |others| ==> !IsSelf(others[i].entry, me)
    decreases |round|
  {
    if |round| == 0 then []
    else (if IsSelf(round[0].entry, me) then [] else [round[0]]) + Others(round[1..], me)
  }

  /**
    The bytes of a payload that are written. As written, the whole payload; with
    `trim`, the part of the chunk from the byte counter on.
   */
  function Usable(payload: Bytes, offset: nat, trim: bool): Bytes {
    if !trim then payload
    else if offset % CHUNK_SIZE <= |payload| then payload[offset % CHUNK_SIZE..]
    else []
  }

  /** What asking candidate c for the chunk at the counter yields; empty means a failed attempt. */
  function Got(name: string, offset: nat, c: Candidate, trim: bool): Bytes {
    match PayloadOf(Ask(c.peer, ChunkRequest(name, ChunkIndex(offset))))
    case None => []
    case Some(p) => Usable(p, offset, trim)
  }

  /** The yield of every candidate of a round, in order. */
  function Attempts(name: string, offset: nat, others: seq<Candidate>, trim: bool): (got: seq<Bytes>)
    ensures |got| == |others|
    ensures forall i :: 0 <= i < |others| ==> got[i] == Got(name, offset, others[i], trim)
  {
    seq(|others|, i requires 0 <= i < |others| => Got(name, offset, others[i], trim))
  }

  /** Write a payload: append it, advance the counter by its length, save the counter. */
  function Append(st: Transfer, name: string, data: Bytes): (next: Transfer)
    ensures next.offset == st.offset + |data|
    ensures |next.local| == |st.local| + |data|
    ensures next.local[..|st.local|] == st.local && next.local[|st.local|..] == data
    ensures Progress.Synced(next.store) && Progress.Get(next.store, name) == next.offset
    ensures forall other :: other != name ==> Progress.Get(next.store, other) == Progress.Get(st.store, other)
  {
    var offset := st.offset + |data|;
    Transfer(offset, st.local + data, Progress.Save(st.store, name, offset))
  }

  /** `next` is `st` after writing a non-empty payload. */
  predicate Grown(st: Transfer, next: Transfer, name: string) {
    st.offset < next.offset && |next.local| == |st.local| + (next.offset - st.offset)
    && next.local[..|st.local|] == st.local
    && next.store == Progress.Save(st.store, name, next.offset)
  }

  /** The first attempt from k on that succeeds, or |got| when none does. */
  function Winner(got: seq<Bytes>, k: nat): (w: nat)
    requires k <= |got|
    ensures k <= w <= |got|
    ensures forall i :: k <= i < w ==> |got[i]| == 0
    ensures w < |got| ==> |got[w]| > 0
    decreases |got| - k
  {
    if k == |got| || |got[k]| > 0 then k else Winner(got, k + 1)
  }

  /**
    The inner `for peer in available_peers` loop from candidate k on, given what each
    candidate yields: the first success is written and ends the round; every attempt
    up to it sends a request for the same chunk.
   */
  function TryPeers(name: string, st: Transfer, to: seq<PeerEntry>, got: seq<Bytes>, index: nat, k: nat): (s: Stepped)
    requires |to| == |got| && k <= |got|
    ensures s.kind != NoOtherPeers
    ensures s.kind == AllFailed <==> Winner(got, k) == |got|
    ensures s.kind == AllFailed ==> s.next == st && |s.requests| == |got| - k
    ensures s.kind == Wrote ==> s.next == Append(st, name, got[Winner(got, k)]) && |s.requests| == Winner(got, k) + 1 - k
    ensures forall i :: 0 <= i < |s.requests| ==> s.requests[i] == Request(to[k + i], index)
    decreases |got| - k
  {
    if k == |got| then Stepped(AllFailed, st, [])
    else
      var req := Request(to[k], index);
      if |got[k]| > 0 then Stepped(Wrote, Append(st, name, got[k]), [req])
      else
        var rest := TryPeers(name, st, to, got, index, k + 1);
        rest.(requests := [req] + rest.requests)
  }

  /** Writing a non-empty payload grows the state. */
  lemma AppendGrows(st: Transfer, name: string, data: Bytes)
    requires |data| > 0
    ensures Grown(st, Append(st, name, data), name)
  {
    assert (st.local + data)[..|st.local|] == st.local;
  }

  function Entries(cands: seq<Candidate>): (to: seq<PeerEntry>)
    ensures |to| == |cands| && forall i :: 0 <= i < |cands| ==> to[i] == cands[i].entry
  {
    seq(|cands|, i requires 0 <= i < |cands| => cands[i].entry)
  }

  /** One iteration of the transfer loop, as written when `trim` is false. */
  function StepWith(name: string, me: Endpoint, st: Transfer, round: seq<Candidate>, trim: bool): (s: Stepped)
    ensures s.kind == NoOtherPeers <==> |Others(round, me)| == 0
    ensures s.kind != Wrote ==> s.next == st
    ensures forall i :: 0 <= i < |s.requests| ==> s.requests[i].chunkIndex == ChunkIndex(st.offset)
    ensures forall i :: 0 <= i < |s.requests| ==> !IsSelf(s.requests[i].to, me)
    ensures s.kind == Wrote ==> Grown(st, s.next, name)
  {
    var others := Others(round, me);
    if |others| == 0 then Stepped(NoOtherPeers, st, [])
    else
      var got := Attempts(name, st.offset, others, trim);
      var s := TryPeers(name, st, Entries(others), got, ChunkIndex(st.offset), 0);
      if s.kind == Wrote then
        AppendGrows(st, name, got[Winner(got, 0)]);
        s
      else s
  }

  /**
    The transfer loop body exactly as written: the whole chunk is appended at the
    counter. On a chunk boundary it is the trimmed step.
   */
  function Step(name: string, me: Endpoint, st: Transfer, round: seq<Candidate>): (s: Stepped)
    ensures st.offset % CHUNK_SIZE == 0 ==> s == ResumeSafeStep(name, me, st, round)
  {
    StepsAgreeWhenAligned(name, me, st, round);
    StepWith(name, me, st, round, false)
  }

  /**
    The loop body with the chunk trimmed to the bytes at and after the counter: a
    round changes nothing or appends a non-empty payload and saves the new counter.
   */
  function ResumeSafeStep(name: string, me: Endpoint, st: Transfer, round: seq<Candidate>): (s: Stepped)
    ensures s.kind == Wrote <==> s.next != st
    ensures s.kind == Wrote ==> Grown(st, s.next, name)
  {
    StepWith(name, me, st, round, true)
  }

  // ---------------------------------------------------------------- honest peers

  /**
    Unreachable, or a seeder whose copy of `name` is `file` (or that has none). A peer
    partway through its own download of `name` holds only a prefix of `file` and is
    not honest in this sense; `PartialPeer` admits it.
   */
  predicate HonestPeer(p: Peer, name: string, file: Bytes) {
    p.Unreachable?
    || (p.Seeding? && (Resolve(p.shared, p.received, name).None? || Resolve(p.shared, p.received, name) == Some(file)))
  }

  predicate Honest(cands: seq<Candidate>, name: string, file: Bytes) {
    forall i :: 0 <= i < |cands| ==> HonestPeer(cands[i].peer, name, file)
  }

  /** A seeder whose copy of `name` is `file`, small enough for every chunk to be sought. */
  predicate Holds(p: Peer, name: string, file: Bytes) {
    p.Seeding? && Resolve(p.shared, p.received, name) == Some(file) && |file| <= OFFSET_LIMIT
  }

  /** Another peer that holds `file` under `name`. */
  predicate Holder(c: Candidate, name: string, file: Bytes, me: Endpoint) {
    !IsSelf(c.entry, me) && Holds(c.peer, name, file)
  }

  predicate HasHolder(round: seq<Candidate>, name: string, file: Bytes, me: Endpoint) {
    exists c :: c in round && Holder(c, name, file, me)
  }

  /** The local bytes are the first `offset` bytes of `file`. */
  predicate PrefixAt(local: Bytes, offset: nat, file: Bytes) {
    offset <= |file| && local == file[..offset]
  }

  /** The first byte of the chunk after the one holding `offset`. */
  function NextBoundary(offset: nat): nat {
    (ChunkIndex(offset) + 1) * CHUNK_SIZE
  }

  /** `g` is the bytes of `file` from `offset` on, as many as it holds. */
  predicate Extends(g: Bytes, offset: nat, file: Bytes) {
    offset + |g| <= |file| && g == file[offset .. offset + |g|]
  }

  /** `g` continues `file` at `offset`, ending at the file's end or at the next chunk boundary. */
  predicate Continues(g: Bytes, offset: nat, file: Bytes) {
    Extends(g, offset, file)
    && (|g| > 0 ==> offset + |g| == |file| || offset + |g| == NextBoundary(offset))
  }

  /** An honest reply continues the file up to the chunk end; a holder always gives one. */
  lemma HonestGot(name: string, offset: nat, c: Candidate, trim: bool, file: Bytes)
    requires HonestPeer(c.peer, name, file) && offset < |file|
    requires trim || offset % CHUNK_SIZE == 0
    ensures Continues(Got(name, offset, c, trim), offset, file)
    ensures Holds(c.peer, name, file) ==> |Got(name, offset, c, trim)| > 0
  {
    var idx := ChunkIndex(offset);
    if Holds(c.peer, name, file) {
      ChunksOfSeekableFileFit(|file|, idx);
    }
    if c.peer.Seeding? && Resolve(c.peer.shared, c.peer.received, name) == Some(file) && SeekFits(idx) {
      SeekableChunkGot(name, offset, c, trim, file);
    }
  }

  /** A seeder holding `file` whose chunk at the counter can be sought yields that chunk from the counter on. */
  lemma SeekableChunkGot(name: string, offset: nat, c: Candidate, trim: bool, file: Bytes)
    requires c.peer.Seeding? && Resolve(c.peer.shared, c.peer.received, name) == Some(file)
    requires SeekFits(ChunkIndex(offset)) && offset < |file|
    requires trim || offset % CHUNK_SIZE == 0
    ensures Continues(Got(name, offset, c, trim), offset, file) && |Got(name, offset, c, trim)| > 0
  {
    var idx := ChunkIndex(offset);
    var chunk := ChunkAt(file, idx);
    assert idx < ChunkCount(|file|);
    assert Serve(c.peer.shared, c.peer.received, ChunkRequest(name, idx)) == Some(ChunkData(chunk));
    var lo := idx * CHUNK_SIZE;
    assert chunk == file[lo .. lo + |chunk|];
    if trim {
      assert offset % CHUNK_SIZE == offset - lo;
      assert Usable(chunk, offset, trim) == file[offset .. lo + |chunk|];
    }
  }

  lemma PrefixExtends(local: Bytes, offset: nat, data: Bytes, file: Bytes)
    requires PrefixAt(local, offset, file) && Extends(data, offset, file)
    ensures PrefixAt(local + data, offset + |data|, file)
  {
    assert file[..offset] + file[offset .. offset + |data|] == file[..offset + |data|];
  }

  /**
    Whoever wins a round of attempts that each extend the file, the local file stays a
    prefix, ending at the next chunk boundary or the end when the winner's payload does.
   */
  lemma TryPeersKeepsPrefix(name: string, st: Transfer, to: seq<PeerEntry>, got: seq<Bytes>, index: nat, file: Bytes)
    requires |to| == |got|
    requires PrefixAt(st.local, st.offset, file)
    requires forall i :: 0 <= i < |got| ==> Extends(got[i], st.offset, file)
    ensures var s := TryPeers(name, st, to, got, index, 0);
      PrefixAt(s.next.local, s.next.offset, file)
      && (s.kind == Wrote && Continues(got[Winner(got, 0)], st.offset, file) ==>
            s.next.offset == |file| || s.next.offset == NextBoundary(st.offset))
  {
    var s := TryPeers(name, st, to, got, index, 0);
    if s.kind == Wrote {
      PrefixExtends(st.local, st.offset, got[Winner(got, 0)], file);
    }
  }

  lemma OthersHonest(round: seq<Candidate>, me: Endpoint, name: string, file: Bytes)
    requires Honest(round, name, file)
    ensures Honest(Others(round, me), name, file)
  {
    var others := Others(round, me);
    forall i | 0 <= i < |others|
      ensures HonestPeer(others[i].peer, name, file)
    {
      assert others[i] in others;
      var j :| 0 <= j < |round| && round[j] == others[i];
    }
  }

  /**
    One round among honest peers, started where the trimmed step allows it, keeps the
    local file a prefix of the remote one; with a holder in the round it writes.
   */
  lemma StepWithKeepsPrefix(name: string, me: Endpoint, st: Transfer, round: seq<Candidate>, trim: bool, file: Bytes)
    requires Honest(round, name, file)
    requires PrefixAt(st.local, st.offset, file) && st.offset < |file|
    requires trim || st.offset % CHUNK_SIZE == 0
    ensures var s := StepWith(name, me, st, round, trim);
      PrefixAt(s.next.local, s.next.offset, file)
      && (s.kind == Wrote ==> s.next.offset == |file| || s.next.offset == NextBoundary(st.offset))
      && (HasHolder(round, name, file, me) ==> s.kind == Wrote)
  {
    var others := Others(round, me);
    OthersHonest(round, me, name, file);
    var got := Attempts(name, st.offset, others, trim);
    forall i | 0 <= i < |got|
      ensures Continues(got[i], st.offset, file)
    {
      HonestGot(name, st.offset, others[i], trim, file);
    }
    if |others| > 0 {
      TryPeersKeepsPrefix(name, st, Entries(others), got, ChunkIndex(st.offset), file);
    }
    if HasHolder(round, name, file, me) {
      var c :| c in round && Holder(c, name, file, me);
      assert c in others;
      var i :| 0 <= i < |others| && others[i] == c;
      HonestGot(name, st.offset, c, trim, file);
      assert |got[i]| > 0;
    }
  }

  /** As written, a round that starts at a chunk boundary keeps the local file a prefix and ends on a boundary. */
  lemma StepKeepsAlignedPrefix(name: string, me: Endpoint, st: Transfer, round: seq<Candidate>, file: Bytes)
    requires Honest(round, name, file)
    requires PrefixAt(st.local, st.offset, file) && st.offset < |file| && st.offset % CHUNK_SIZE == 0
    ensures var s := Step(name, me, st, round);
      PrefixAt(s.next.local, s.next.offset, file)
      && (s.next.offset % CHUNK_SIZE == 0 || s.next.offset == |file|)
  {
    StepWithKeepsPrefix(name, me, st, round, false, file);
    BoundaryAligned(st.offset);
  }

  lemma BoundaryAligned(offset: nat)
    ensures NextBoundary(offset) % CHUNK_SIZE == 0
  {
    var b := ChunkIndex(offset) + 1;
    assert NextBoundary(offset) == b * CHUNK_SIZE;
  }

  /** The trimmed step keeps the local file a prefix from any byte counter, aligned or not. */
  lemma ResumeSafeStepKeepsPrefix(name: string, me: Endpoint, st: Transfer, round: seq<Candidate>, file: Bytes)
    requires Honest(round, name, file)
    requires PrefixAt(st.local, st.offset, file) && st.offset < |file|
    ensures var s := ResumeSafeStep(name, me, st, round);
      PrefixAt(s.next.local, s.next.offset, file)
      && (HasHolder(round, name, file, me) ==> s.kind == Wrote)
  {
    StepWithKeepsPrefix(name, me, st, round, true, file);
  }

  /** On a chunk boundary trimming removes nothing, so the two steps coincide. */
  lemma StepsAgreeWhenAligned(name: string, me: Endpoint, st: Transfer, round: seq<Candidate>)
    ensures st.offset % CHUNK_SIZE == 0 ==> StepWith(name, me, st, round, false) == StepWith(name, me, st, round, true)
  {
    if st.offset % CHUNK_SIZE != 0 { return; }
    var others := Others(round, me);
    forall i | 0 <= i < |others|
      ensures Got(name, st.offset, others[i], false) == Got(name, st.offset, others[i], true)
    {
      var reply := PayloadOf(Ask(others[i].peer, ChunkRequest(name, ChunkIndex(st.offset))));
      if reply.Some? {
        assert reply.value[0..] == reply.value;
      }
    }
    assert Attempts(name, st.offset, others, false) == Attempts(name, st.offset, others, true);
  }

  /**
    Resuming from a local file whose size is not a multiple of the chunk size: the
    whole chunk holding the counter is appended, so bytes before the counter are
    written a second time and the local file stops being a prefix of the remote one.
   */
  lemma UnalignedResumeCorrupts()
    ensures var file: Bytes := seq(2 * CHUNK_SIZE, i => if i == 0 then 1 else 0);
      var st := Transfer(10, file[..10], Progress.Store(map["f" := 10], Progress.Saved(map["f" := 10])));
      var round := [Candidate(PeerEntry("seeder", "10.0.0.2", 6000), Seeding(map["f" := file], map[]))];
      var s := Step("f", Endpoint("10.0.0.1", 6000), st, round);
      s.kind == Wrote && |s.next.local| == s.next.offset && s.next.offset <= |file|
      && s.next.local != file[..s.next.offset]
  {
    var file: Bytes := seq(2 * CHUNK_SIZE, i => if i == 0 then 1 else 0);
    var st := Transfer(10, file[..10], Progress.Store(map["f" := 10], Progress.Saved(map["f" := 10])));
    var c := Candidate(PeerEntry("seeder", "10.0.0.2", 6000), Seeding(map["f" := file], map[]));
    var me := Endpoint("10.0.0.1", 6000);
    assert ChunkIndex(10) == 0;
    var chunk := ChunkAt(file, 0);
    assert |chunk| == CHUNK_SIZE;
    assert Got("f", 10, c, false) == chunk;
    assert Others([c], me) == [c];
    var s := Step("f", me, st, [c]);
    assert s.next == Append(st, "f", chunk);
    assert s.next.local[10] == chunk[0] == 1;
    assert file[..s.next.offset][10] == 0;
  }

  /**
    The whole download as written, from a local file holding the first 10 bytes of a
    two-chunk remote file, with one honest seeder listed throughout: it reports
    completion with 10 bytes too many. The trimmed download from the same start ends
    with the remote file.
   */
  lemma UnalignedDownloadCorrupts()
    ensures var file: Bytes := seq(2 * CHUNK_SIZE, i => if i == 0 then 1 else 0);
      var c := Candidate(PeerEntry("seeder", "10.0.0.2", 6000), Seeding(map["f" := file], map[]));
      var me := Endpoint("10.0.0.1", 6000);
      var asWritten := DownloadFile("f", me, Progress.Missing, Some(file[..10]), [c], [[c], [c]], false);
      var trimmed := DownloadFile("f", me, Progress.Missing, Some(file[..10]), [c], [[c], [c]], true);
      Consistent(Some(file[..10]), file)
      && asWritten.outcome == Completed && asWritten.local.Some? && |asWritten.local.value| == 2 * CHUNK_SIZE + 10
      && trimmed.outcome == Completed && trimmed.local == Some(file)
  {
    var file: Bytes := seq(2 * CHUNK_SIZE, i => if i == 0 then 1 else 0);
    var c := Candidate(PeerEntry("seeder", "10.0.0.2", 6000), Seeding(map["f" := file], map[]));
    var me := Endpoint("10.0.0.1", 6000);
    var local := Some(file[..10]);
    assert Holder(c, "f", file, me);
    assert HasHolder([c], "f", file, me);
    assert Others([c], me) == [c];
    assert Discover("f", me, [c]).result == SizeReported(2 * CHUNK_SIZE);
    var store := Progress.Load(Progress.Missing);
    var st := Transfer(10, file[..10], Progress.Save(store, "f", 10));
    assert Reconcile("f", 2 * CHUNK_SIZE, local, store) == Fetch(st);
    // round one: chunk 0 appended whole after byte 10
    assert ChunkIndex(10) == 0;
    assert |Got("f", 10, c, false)| == CHUNK_SIZE;
    var s1 := StepWith("f", me, st, [c], false);
    assert s1.next.offset == CHUNK_SIZE + 10;
    // round two: chunk 1 appended whole, and the counter passes the size
    assert ChunkIndex(CHUNK_SIZE + 10) == 1;
    assert |Got("f", CHUNK_SIZE + 10, c, false)| == CHUNK_SIZE;
    var s2 := StepWith("f", me, s1.next, [c], false);
    assert s2.next.offset == 2 * CHUNK_SIZE + 10;
    assert Run("f", me, 2 * CHUNK_SIZE, s2.next, [], false) == s2.next;
    assert Run("f", me, 2 * CHUNK_SIZE, st, [[c], [c]], false) == s2.next;
    // the trimmed download completes with the file
    assert HonestRounds([[c], [c]], "f", file) && HeldInEveryRound([[c], [c]], "f", file, me);
    HonestDownloadCompletes("f", me, Progress.Missing, local, [c], [[c], [c]], true, file);
  }

  // ---------------------------------------------------------------- the transfer loop

  /**
    `while offset < file_size`, one round per element of `rounds` (the tracker's list
    for that round), stopping when the counter reaches the size or the rounds run out.
    Each round is the step as written when `trim` is false, the trimmed step otherwise.
   */
  function Run(name: string, me: Endpoint, size: nat, st: Transfer, rounds: seq<seq<Candidate>>, trim: bool): (end: Transfer)
    ensures st.offset <= end.offset
    ensures |st.local| <= |end.local| && end.local[..|st.local|] == st.local
    ensures |st.local| == st.offset ==> |end.local| == end.offset
    ensures Progress.Get(st.store, name) == st.offset ==> Progress.Get(end.store, name) == end.offset
    ensures size <= st.offset ==> end == st
    decreases |rounds|
  {
    if size <= st.offset || |rounds| == 0 then st
    else
      var s := StepWith(name, me, st, rounds[0], trim);
      var end := Run(name, me, size, s.next, rounds[1..], trim);
      assert end.local[..|st.local|] == end.local[..|s.next.local|][..|st.local|];
      end
  }

  /** Every round's list is honest about `file`. */
  predicate HonestRounds(rounds: seq<seq<Candidate>>, name: string, file: Bytes) {
    forall i :: 0 <= i < |rounds| ==> Honest(rounds[i], name, file)
  }

  /** Every round's list names another peer holding `file`. */
  predicate HeldInEveryRound(rounds: seq<seq<Candidate>>, name: string, file: Bytes, me: Endpoint) {
    forall i :: 0 <= i < |rounds| ==> HasHolder(rounds[i], name, file, me)
  }

  /** The counter is on a chunk boundary, or the file is complete. */
  predicate Aligned(offset: nat, size: nat) {
    offset % CHUNK_SIZE == 0 || size <= offset
  }

  /**
    Among honest peers the transfer loop only ever extends a prefix of the remote file:
    from any counter when trimming, and as written from a counter on a chunk boundary,
    which it then never leaves.
   */
  lemma {:induction false} RunKeepsPrefix(name: string, me: Endpoint, st: Transfer, rounds: seq<seq<Candidate>>,
                                          trim: bool, file: Bytes)
    requires HonestRounds(rounds, name, file)
    requires PrefixAt(st.local, st.offset, file)
    requires trim || Aligned(st.offset, |file|)
    ensures var end := Run(name, me, |file|, st, rounds, trim);
      PrefixAt(end.local, end.offset, file) && (trim || Aligned(end.offset, |file|))
    decreases |rounds|
  {
    if st.offset < |file| && |rounds| > 0 {
      StepWithKeepsPrefix(name, me, st, rounds[0], trim, file);
      BoundaryAligned(st.offset);
      var next := StepWith(name, me, st, rounds[0], trim).next;
      RunKeepsPrefix(name, me, next, rounds[1..], trim, file);
    }
  }

  /**
    Among honest peers, from a counter on a chunk boundary, the loop as written and the
    trimmed loop produce the same state: every counter they reach is a boundary or the end.
   */
  lemma {:induction false} RunsAgreeWhenAligned(name: string, me: Endpoint, st: Transfer,
                                                rounds: seq<seq<Candidate>>, file: Bytes)
    requires HonestRounds(rounds, name, file)
    requires PrefixAt(st.local, st.offset, file) && Aligned(st.offset, |file|)
    ensures Run(name, me, |file|, st, rounds, false) == Run(name, me, |file|, st, rounds, true)
    decreases |rounds|
  {
    if st.offset < |file| && |rounds| > 0 {
      StepsAgreeWhenAligned(name, me, st, rounds[0]);
      StepWithKeepsPrefix(name, me, st, rounds[0], false, file);
      BoundaryAligned(st.offset);
      var next := StepWith(name, me, st, rounds[0], false).next;
      RunsAgreeWhenAligned(name, me, next, rounds[1..], file);
    }
  }

  /** Rounds still needed from `offset`: one per chunk from the one holding it to the last. */
  function Remaining(offset: nat, size: nat): nat {
    if size <= offset then 0 else ChunkCount(size) - ChunkIndex(offset)
  }

  /** A boundary below the size leaves one round fewer to go. */
  lemma RemainingShrinks(offset: nat, size: nat)
    requires offset < size
    ensures ChunkIndex(offset) < ChunkCount(size)
    ensures NextBoundary(offset) < size ==> Remaining(NextBoundary(offset), size) == Remaining(offset, size) - 1
  {
    var i := ChunkIndex(offset);
    var b := NextBoundary(offset);
    assert b == (i + 1) * CHUNK_SIZE;
    assert ChunkIndex(b) == i + 1;
  }

  /**
    With a holder in every round and at least one round per remaining chunk, the
    transfer loop reaches the file's size: from any counter when trimming, and as
    written from a counter on a chunk boundary.
   */
  lemma {:induction false} RunCompletes(name: string, me: Endpoint, st: Transfer, rounds: seq<seq<Candidate>>,
                                        trim: bool, file: Bytes)
    requires HonestRounds(rounds, name, file) && HeldInEveryRound(rounds, name, file, me)
    requires PrefixAt(st.local, st.offset, file)
    requires trim || Aligned(st.offset, |file|)
    requires Remaining(st.offset, |file|) <= |rounds|
    ensures Run(name, me, |file|, st, rounds, trim).offset == |file|
    decreases |rounds|
  {
    if st.offset < |file| {
      RemainingShrinks(st.offset, |file|);
      StepWithKeepsPrefix(name, me, st, rounds[0], trim, file);
      BoundaryAligned(st.offset);
      var next := StepWith(name, me, st, rounds[0], trim).next;
      assert HonestRounds(rounds[1..], name, file) by {
        forall i | 0 <= i < |rounds| - 1 ensures Honest(rounds[1..][i], name, file) {
          assert rounds[1..][i] == rounds[i + 1];
        }
      }
      assert HeldInEveryRound(rounds[1..], name, file, me) by {
        forall i | 0 <= i < |rounds| - 1 ensures HasHolder(rounds[1..][i], name, file, me) {
          assert rounds[1..][i] == rounds[i + 1];
        }
      }
      RunCompletes(name, me, next, rounds[1..], trim, file);
    }
  }

  // ---------------------------------------------------------------- the whole download

  datatype Outcome =
    | NoSource         // the tracker lists nobody
    | SizeUnknown      // nobody else reported a size
    | AlreadyComplete  // the local file already has the remote size
    | Completed        // the counter reached the size
    | Incomplete       // the rounds ran out first

  /**
    The end state: the progress store, the local file (None when absent) and whether
    the peer re-announced its files to the tracker.
   */
  datatype Finished = Finished(outcome: Outcome, store: Progress.Store, local: Option<Bytes>, announced: bool)

  predicate Done(o: Outcome) {
    o == AlreadyComplete || o == Completed
  }

  /**
    `download_file`, as written when `trim` is false. The progress file is loaded first;
    the offset read from it is overwritten by every reconcile branch, so the local
    file's size decides where to resume. `listed` is the first tracker query, `rounds`
    the query of each loop pass.
   */
  function DownloadFile(name: string, me: Endpoint, disk: Progress.Disk, local: Option<Bytes>,
                        listed: seq<Candidate>, rounds: seq<seq<Candidate>>, trim: bool): (f: Finished)
    ensures f.outcome == NoSource <==> |listed| == 0
    ensures f.outcome == SizeUnknown <==>
      |listed| > 0 && forall i :: 0 <= i < |listed| ==> ReportedSize(name, me, listed[i]).None?
    ensures f.outcome == NoSource || f.outcome == SizeUnknown ==>
      f.store == Progress.Load(disk) && f.local == local && !f.announced
    ensures f.announced <==> Done(f.outcome)
    ensures Done(f.outcome) ==> name !in f.store.entries && f.local.Some?
    ensures f.outcome == Incomplete ==> f.local.Some? && Progress.Get(f.store, name) == |f.local.value|
  {
    var store := Progress.Load(disk);
    var d := Discover(name, me, listed);
    match d.result
    case NobodyListed => Finished(NoSource, store, local, false)
    case NoSizeReported => Finished(SizeUnknown, store, local, false)
    case SizeReported(size) => Retrieve(name, me, size, local, store, rounds, trim)
  }

  /** Everything after the size is known: reconcile, the transfer loop, completion. */
  function Retrieve(name: string, me: Endpoint, size: nat, local: Option<Bytes>, store: Progress.Store,
                    rounds: seq<seq<Candidate>>, trim: bool): (f: Finished)
    ensures !(f.outcome == NoSource || f.outcome == SizeUnknown)
    ensures f.outcome == AlreadyComplete <==> local.Some? && |local.value| == size
    ensures f.announced <==> Done(f.outcome)
    ensures Done(f.outcome) ==> name !in f.store.entries && f.local.Some? && |f.local.value| >= size
    ensures f.outcome == Incomplete ==> f.local.Some? && Progress.Get(f.store, name) == |f.local.value| < size
  {
    match Reconcile(name, size, local, store)
    case UpToDate(s) => Finished(AlreadyComplete, s, local, true)
    case Fetch(st) =>
      var end := Run(name, me, size, st, rounds, trim);
      if size <= end.offset then Finished(Completed, Progress.Remove(end.store, name), Some(end.local), true)
      else Finished(Incomplete, end.store, Some(end.local), false)
  }

  /** Honest peers report the true size, and a listed holder guarantees a report. */
  lemma HonestPeersReportFileSize(name: string, me: Endpoint, listed: seq<Candidate>, file: Bytes)
    requires Honest(listed, name, file)
    ensures var d := Discover(name, me, listed);
      (d.result.SizeReported? ==> d.result.size == |file|)
      && (HasHolder(listed, name, file, me) ==> d.result.SizeReported?)
  {
    var d := Discover(name, me, listed);
    if d.result.SizeReported? {
      var i :| 0 <= i < |listed| && FirstReporter(name, me, listed, 0, i)
               && ReportedSize(name, me, listed[i]) == Some(d.result.size);
      assert HonestPeer(listed[i].peer, name, file);
    }
    if HasHolder(listed, name, file, me) {
      var c :| c in listed && Holder(c, name, file, me);
      var i :| 0 <= i < |listed| && listed[i] == c;
      assert ReportedSize(name, me, c) == Some(|file|);
    }
  }

  /** The local file is absent, oversized, or agrees with `file` on every byte it has. */
  predicate Consistent(local: Option<Bytes>, file: Bytes) {
    local.None? || |local.value| > |file| || local.value == file[..|local.value|]
  }

  /** The local file is absent, a whole number of chunks long, or at least the remote size. */
  predicate AlignedStart(local: Option<Bytes>, size: nat) {
    local.None? || Aligned(|local.value|, size)
  }

  /**
    Among honest peers a download never leaves a local file that disagrees with the
    remote one: it is always a prefix, and all of it when the download is done. As
    written this needs a local file cut on a chunk boundary; trimmed, any consistent one.
   */
  lemma HonestDownloadIsPrefix(name: string, me: Endpoint, disk: Progress.Disk, local: Option<Bytes>,
                               listed: seq<Candidate>, rounds: seq<seq<Candidate>>, trim: bool, file: Bytes)
    requires Honest(listed, name, file) && HonestRounds(rounds, name, file)
    requires Consistent(local, file)
    requires trim || AlignedStart(local, |file|)
    ensures var f := DownloadFile(name, me, disk, local, listed, rounds, trim);
      (Done(f.outcome) || f.outcome == Incomplete ==> f.local.Some? && PrefixAt(f.local.value, |f.local.value|, file))
      && (Done(f.outcome) ==> f.local == Some(file))
  {
    HonestPeersReportFileSize(name, me, listed, file);
    var d := Discover(name, me, listed);
    if d.result.SizeReported? {
      RetrieveIsPrefix(name, me, local, Progress.Load(disk), rounds, trim, file);
    }
  }

  /** The part after discovery, given the true size. */
  lemma RetrieveIsPrefix(name: string, me: Endpoint, local: Option<Bytes>, store: Progress.Store,
                         rounds: seq<seq<Candidate>>, trim: bool, file: Bytes)
    requires HonestRounds(rounds, name, file) && Consistent(local, file)
    requires trim || AlignedStart(local, |file|)
    ensures var f := Retrieve(name, me, |file|, local, store, rounds, trim);
      (f.local.Some? ==> PrefixAt(f.local.value, |f.local.value|, file))
      && (Done(f.outcome) ==> f.local == Some(file))
  {
    var plan := Reconcile(name, |file|, local, store);
    var f := Retrieve(name, me, |file|, local, store, rounds, trim);
    assert file[..|file|] == file;
    if plan.UpToDate? {
      assert f.local == local;
    } else {
      ReconcileStartsOnPrefix(name, local, store, file);
      RunEndsOnPrefix(name, me, plan.from, rounds, trim, file);
    }
  }

  /** The loop's result is a prefix of the file, and the whole file once the counter reaches its size. */
  lemma RunEndsOnPrefix(name: string, me: Endpoint, st: Transfer, rounds: seq<seq<Candidate>>, trim: bool, file: Bytes)
    requires HonestRounds(rounds, name, file)
    requires PrefixAt(st.local, st.offset, file)
    requires trim || Aligned(st.offset, |file|)
    ensures var end := Run(name, me, |file|, st, rounds, trim);
      PrefixAt(end.local, |end.local|, file) && (|file| <= end.offset ==> end.local == file)
  {
    RunKeepsPrefix(name, me, st, rounds, trim, file);
    assert file[..|file|] == file;
  }

  /**
    Reconciling a consistent local file against the true size starts the transfer on a
    prefix, and on a chunk boundary when the local file was cut on one.
   */
  lemma ReconcileStartsOnPrefix(name: string, local: Option<Bytes>, store: Progress.Store, file: Bytes)
    requires Consistent(local, file)
    ensures var plan := Reconcile(name, |file|, local, store);
      plan.Fetch? ==> PrefixAt(plan.from.local, plan.from.offset, file)
                      && (AlignedStart(local, |file|) ==> Aligned(plan.from.offset, |file|))
  {
    assert file[..0] == [];
  }

  /**
    With a holder listed at the start and in every round, and a round per chunk,
    the download finishes with the remote file and no progress entry left behind.
    As written this needs a local file cut on a chunk boundary; trimmed, any consistent one.
   */
  lemma HonestDownloadCompletes(name: string, me: Endpoint, disk: Progress.Disk, local: Option<Bytes>,
                                listed: seq<Candidate>, rounds: seq<seq<Candidate>>, trim: bool, file: Bytes)
    requires Honest(listed, name, file) && HasHolder(listed, name, file, me)
    requires HonestRounds(rounds, name, file) && HeldInEveryRound(rounds, name, file, me)
    requires ChunkCount(|file|) <= |rounds|
    requires Consistent(local, file)
    requires trim || AlignedStart(local, |file|)
    ensures var f := DownloadFile(name, me, disk, local, listed, rounds, trim);
      Done(f.outcome) && f.local == Some(file) && name !in f.store.entries && f.announced
  {
    HonestPeersReportFileSize(name, me, listed, file);
    HonestDownloadIsPrefix(name, me, disk, local, listed, rounds, trim, file);
    var plan := Reconcile(name, |file|, local, Progress.Load(disk));
    if plan.Fetch? {
      ReconcileStartsOnPrefix(name, local, Progress.Load(disk), file);
      assert Remaining(plan.from.offset, |file|) <= ChunkCount(|file|);
      RunCompletes(name, me, plan.from, rounds, trim, file);
    }
  }

  /**
    Among honest peers, a download whose local file was cut on a chunk boundary runs
    the same as written and trimmed.
   */
  lemma DownloadsAgreeWhenAligned(name: string, me: Endpoint, disk: Progress.Disk, local: Option<Bytes>,
                                  listed: seq<Candidate>, rounds: seq<seq<Candidate>>, file: Bytes)
    requires Honest(listed, name, file) && HonestRounds(rounds, name, file)
    requires Consistent(local, file) && AlignedStart(local, |file|)
    ensures DownloadFile(name, me, disk, local, listed, rounds, false)
         == DownloadFile(name, me, disk, local, listed, rounds, true)
  {
    HonestPeersReportFileSize(name, me, listed, file);
    var d := Discover(name, me, listed);
    if d.result.SizeReported? {
      var store := Progress.Load(disk);
      var plan := Reconcile(name, |file|, local, store);
      if plan.Fetch? {
        ReconcileStartsOnPrefix(name, local, store, file);
        RunsAgreeWhenAligned(name, me, plan.from, rounds, file);
      }
    }
  }

  // ---------------------------------------------------------------- peers partway through a download

  /** `p` is `file` cut somewhere, possibly at its end. */
  predicate PrefixOf(p: Bytes, file: Bytes) {
    |p| <= |file| && p == file[..|p|]
  }

  /**
    Unreachable, or a seeder that has no copy of `name` or holds a prefix of `file`
    under it: the whole file, or what a download of its own has written so far into
    the received directory, which its heartbeat already advertises.
   */
  predicate PartialPeer(p: Peer, name: string, file: Bytes) {
    p.Unreachable?
    || (p.Seeding? && (Resolve(p.shared, p.received, name).None?
                       || PrefixOf(Resolve(p.shared, p.received, name).value, file)))
  }

  predicate PartialRound(cands: seq<Candidate>, name: string, file: Bytes) {
    forall i :: 0 <= i < |cands| ==> PartialPeer(cands[i].peer, name, file)
  }

  predicate PartialRounds(rounds: seq<seq<Candidate>>, name: string, file: Bytes) {
    forall i :: 0 <= i < |rounds| ==> PartialRound(rounds[i], name, file)
  }

  /** The size every other listed peer from k on reports, the largest kept. */
  function ProbeLargest(name: string, me: Endpoint, cands: seq<Candidate>, k: nat): (d: Discovery)
    requires k <= |cands|
    ensures !d.NobodyListed?
    ensures d.NoSizeReported? <==> forall i :: k <= i < |cands| ==> ReportedSize(name, me, cands[i]).None?
    ensures d.SizeReported? ==> exists i :: k <= i < |cands| && ReportedSize(name, me, cands[i]) == Some(d.size)
    ensures d.SizeReported? ==> forall i :: k <= i < |cands| && ReportedSize(name, me, cands[i]).Some? ==>
              ReportedSize(name, me, cands[i]).value <= d.size
    decreases |cands| - k
  {
    if k == |cands| then NoSizeReported
    else
      var rest := ProbeLargest(name, me, cands, k + 1);
      match ReportedSize(name, me, cands[k])
      case None => rest
      case Some(size) => if rest.SizeReported? && size <= rest.size then rest else SizeReported(size)
  }

  /**
    The corrected size discovery: every other listed peer is asked and the largest
    reported size is kept, so a peer partway through its own download cannot cut the
    file short.
   */
  function DiscoverLargest(name: string, me: Endpoint, listed: seq<Candidate>): (d: Discovery)
    ensures d.NobodyListed? <==> |listed| == 0
    ensures d.NoSizeReported? <==>
      |listed| > 0 && forall i :: 0 <= i < |listed| ==> ReportedSize(name, me, listed[i]).None?
    ensures d.SizeReported? ==> exists i :: 0 <= i < |listed| && ReportedSize(name, me, listed[i]) == Some(d.size)
    ensures d.SizeReported? ==> forall i :: 0 <= i < |listed| && ReportedSize(name, me, listed[i]).Some? ==>
              ReportedSize(name, me, listed[i]).value <= d.size
  {
    if |listed| == 0 then NobodyListed else ProbeLargest(name, me, listed, 0)
  }

  /**
    `download_file` corrected for peers partway through their own download: the size
    is the largest any listed peer reports, and each chunk is trimmed to the bytes
    from the counter on.
   */
  function DownloadFileFixed(name: string, me: Endpoint, disk: Progress.Disk, local: Option<Bytes>,
                             listed: seq<Candidate>, rounds: seq<seq<Candidate>>): (f: Finished)
    ensures f.outcome == NoSource <==> |listed| == 0
    ensures f.outcome == SizeUnknown <==>
      |listed| > 0 && forall i :: 0 <= i < |listed| ==> ReportedSize(name, me, listed[i]).None?
    ensures f.announced <==> Done(f.outcome)
    ensures Done(f.outcome) ==> name !in f.store.entries && f.local.Some?
  {
    var store := Progress.Load(disk);
    match DiscoverLargest(name, me, listed)
    case NobodyListed => Finished(NoSource, store, local, false)
    case NoSizeReported => Finished(SizeUnknown, store, local, false)
    case SizeReported(size) => Retrieve(name, me, size, local, store, rounds, true)
  }

  /** With a holder listed among peers holding prefixes, the largest reported size is the file's. */
  lemma LargestReportIsFileSize(name: string, me: Endpoint, listed: seq<Candidate>, file: Bytes)
    requires PartialRound(listed, name, file) && HasHolder(listed, name, file, me)
    ensures DiscoverLargest(name, me, listed) == SizeReported(|file|)
  {
    var c :| c in listed && Holder(c, name, file, me);
    var i :| 0 <= i < |listed| && listed[i] == c;
    assert ReportedSize(name, me, listed[i]) == Some(|file|);
    var d := DiscoverLargest(name, me, listed);
    var j :| 0 <= j < |listed| && ReportedSize(name, me, listed[j]) == Some(d.size);
    assert PartialPeer(listed[j].peer, name, file);
  }

  /** A peer holding a prefix yields, once trimmed, the file's bytes from the counter on. */
  lemma PartialGot(name: string, offset: nat, c: Candidate, file: Bytes)
    requires PartialPeer(c.peer, name, file) && offset < |file|
    ensures Extends(Got(name, offset, c, true), offset, file)
  {
    var idx := ChunkIndex(offset);
    if c.peer.Seeding? && Resolve(c.peer.shared, c.peer.received, name).Some? {
      var held := Resolve(c.peer.shared, c.peer.received, name).value;
      if SeekFits(idx) && idx < ChunkCount(|held|) {
        var chunk := ChunkAt(held, idx);
        assert Serve(c.peer.shared, c.peer.received, ChunkRequest(name, idx)) == Some(ChunkData(chunk));
        var lo := idx * CHUNK_SIZE;
        assert chunk == file[lo .. lo + |chunk|];
        assert offset % CHUNK_SIZE == offset - lo;
        if offset - lo <= |chunk| {
          assert Usable(chunk, offset, true) == file[offset .. lo + |chunk|];
        }
      }
    }
  }

  /**
    The trimmed round keeps the local file a prefix among peers holding prefixes of
    the file, and writes whenever another peer holds all of it.
   */
  lemma PartialStepKeepsPrefix(name: string, me: Endpoint, st: Transfer, round: seq<Candidate>, file: Bytes)
    requires PartialRound(round, name, file)
    requires PrefixAt(st.local, st.offset, file) && st.offset < |file|
    ensures var s := ResumeSafeStep(name, me, st, round);
      PrefixAt(s.next.local, s.next.offset, file)
      && (HasHolder(round, name, file, me) ==> s.kind == Wrote)
  {
    var others := Others(round, me);
    var got := Attempts(name, st.offset, others, true);
    forall i | 0 <= i < |got|
      ensures Extends(got[i], st.offset, file)
    {
      assert others[i] in others;
      var j :| 0 <= j < |round| && round[j] == others[i];
      PartialGot(name, st.offset, others[i], file);
    }
    if |others| > 0 {
      TryPeersKeepsPrefix(name, st, Entries(others), got, ChunkIndex(st.offset), file);
    }
    if HasHolder(round, name, file, me) {
      var c :| c in round && Holder(c, name, file, me);
      assert c in others;
      var i :| 0 <= i < |others| && others[i] == c;
      HonestGot(name, st.offset, c, true, file);
      assert |got[i]| > 0;
    }
  }

  lemma PartialRoundsTail(rounds: seq<seq<Candidate>>, name: string, file: Bytes)
    requires |rounds| > 0 && PartialRounds(rounds, name, file)
    ensures PartialRound(rounds[0], name, file) && PartialRounds(rounds[1..], name, file)
  {
    forall i | 0 <= i < |rounds| - 1 ensures PartialRound(rounds[1..][i], name, file) {
      assert rounds[1..][i] == rounds[i + 1];
    }
  }

  /** The trimmed loop keeps the local file a prefix among peers holding prefixes. */
  lemma {:induction false} PartialRunKeepsPrefix(name: string, me: Endpoint, st: Transfer,
                                                 rounds: seq<seq<Candidate>>, file: Bytes)
    requires PartialRounds(rounds, name, file)
    requires PrefixAt(st.local, st.offset, file)
    ensures var end := Run(name, me, |file|, st, rounds, true); PrefixAt(end.local, end.offset, file)
    decreases |rounds|
  {
    if st.offset < |file| && |rounds| > 0 {
      PartialRoundsTail(rounds, name, file);
      PartialStepKeepsPrefix(name, me, st, rounds[0], file);
      var next := StepWith(name, me, st, rounds[0], true).next;
      PartialRunKeepsPrefix(name, me, next, rounds[1..], file);
    }
  }

  /**
    Among peers holding prefixes, with another holder of the whole file in every round,
    the trimmed loop reaches the size within one round per missing byte: a round won
    by a peer with less than a chunk still writes at least one byte.
   */
  lemma {:induction false} PartialRunCompletes(name: string, me: Endpoint, st: Transfer,
                                               rounds: seq<seq<Candidate>>, file: Bytes)
    requires PartialRounds(rounds, name, file) && HeldInEveryRound(rounds, name, file, me)
    requires PrefixAt(st.local, st.offset, file)
    requires |file| - st.offset <= |rounds|
    ensures Run(name, me, |file|, st, rounds, true).offset == |file|
    decreases |rounds|
  {
    if st.offset < |file| {
      PartialRoundsTail(rounds, name, file);
      assert HasHolder(rounds[0], name, file, me);
      PartialStepKeepsPrefix(name, me, st, rounds[0], file);
      var next := StepWith(name, me, st, rounds[0], true).next;
      assert HeldInEveryRound(rounds[1..], name, file, me) by {
        forall i | 0 <= i < |rounds| - 1 ensures HasHolder(rounds[1..][i], name, file, me) {
          assert rounds[1..][i] == rounds[i + 1];
        }
      }
      PartialRunCompletes(name, me, next, rounds[1..], file);
    }
  }

  /**
    The corrected download among peers holding prefixes, with a holder of the whole file
    listed at the start, never leaves a local file that disagrees with the remote one,
    and a finished one holds exactly the remote file.
   */
  lemma FixedDownloadIsPrefix(name: string, me: Endpoint, disk: Progress.Disk, local: Option<Bytes>,
                              listed: seq<Candidate>, rounds: seq<seq<Candidate>>, file: Bytes)
    requires PartialRound(listed, name, file) && HasHolder(listed, name, file, me)
    requires PartialRounds(rounds, name, file)
    requires Consistent(local, file)
    ensures var f := DownloadFileFixed(name, me, disk, local, listed, rounds);
      (Done(f.outcome) || f.outcome == Incomplete ==> f.local.Some? && PrefixAt(f.local.value, |f.local.value|, file))
      && (Done(f.outcome) ==> f.local == Some(file))
  {
    LargestReportIsFileSize(name, me, listed, file);
    PartialRetrieveIsPrefix(name, me, local, Progress.Load(disk), rounds, file);
  }

  /** The part of the corrected download after discovery, given the true size. */
  lemma PartialRetrieveIsPrefix(name: string, me: Endpoint, local: Option<Bytes>, store: Progress.Store,
                                rounds: seq<seq<Candidate>>, file: Bytes)
    requires PartialRounds(rounds, name, file) && Consistent(local, file)
    ensures var f := Retrieve(name, me, |file|, local, store, rounds, true);
      (f.local.Some? ==> PrefixAt(f.local.value, |f.local.value|, file))
      && (Done(f.outcome) ==> f.local == Some(file))
  {
    var plan := Reconcile(name, |file|, local, store);
    var f := Retrieve(name, me, |file|, local, store, rounds, true);
    assert file[..|file|] == file;
    if plan.UpToDate? {
      assert f.local == local;
    } else {
      ReconcileStartsOnPrefix(name, local, store, file);
      PartialRunKeepsPrefix(name, me, plan.from, rounds, file);
    }
  }

  /**
    The corrected download among peers holding prefixes, with a holder of the whole file
    listed at the start and in every round, and a round per byte, finishes with the
    remote file, no progress entry and a re-announcement.
   */
  lemma FixedDownloadCompletes(name: string, me: Endpoint, disk: Progress.Disk, local: Option<Bytes>,
                               listed: seq<Candidate>, rounds: seq<seq<Candidate>>, file: Bytes)
    requires PartialRound(listed, name, file) && HasHolder(listed, name, file, me)
    requires PartialRounds(rounds, name, file) && HeldInEveryRound(rounds, name, file, me)
    requires |file| <= |rounds|
    requires Consistent(local, file)
    ensures var f := DownloadFileFixed(name, me, disk, local, listed, rounds);
      Done(f.outcome) && f.local == Some(file) && name !in f.store.entries && f.announced
  {
    FixedDownloadIsPrefix(name, me, disk, local, listed, rounds, file);
    LargestReportIsFileSize(name, me, listed, file);
    PartialRetrieveCompletes(name, me, local, Progress.Load(disk), rounds, file);
  }

  /** The part of the corrected download after discovery reaches the true size. */
  lemma PartialRetrieveCompletes(name: string, me: Endpoint, local: Option<Bytes>, store: Progress.Store,
                                 rounds: seq<seq<Candidate>>, file: Bytes)
    requires PartialRounds(rounds, name, file) && HeldInEveryRound(rounds, name, file, me)
    requires |file| <= |rounds| && Consistent(local, file)
    ensures Done(Retrieve(name, me, |file|, local, store, rounds, true).outcome)
  {
    var plan := Reconcile(name, |file|, local, store);
    if plan.Fetch? {
      ReconcileStartsOnPrefix(name, local, store, file);
      PartialRunCompletes(name, me, plan.from, rounds, file);
    }
  }

  /** A round listing one other peer whose attempt yields bytes writes them. */
  lemma OneCandidateRound(name: string, me: Endpoint, st: Transfer, c: Candidate, trim: bool)
    requires !IsSelf(c.entry, me) && |Got(name, st.offset, c, trim)| > 0
    ensures StepWith(name, me, st, [c], trim).next == Append(st, name, Got(name, st.offset, c, trim))
  {
    assert Others([c], me) == [c];
    var got := Attempts(name, st.offset, [c], trim);
    assert got[0] == Got(name, st.offset, c, trim);
    assert Winner(got, 0) == 0;
  }

  /** A seeder asked for an in-range chunk of its copy yields that chunk, trimmed or not. */
  lemma ServedChunk(name: string, offset: nat, c: Candidate, trim: bool)
    requires c.peer.Seeding? && Resolve(c.peer.shared, c.peer.received, name).Some?
    requires SeekFits(ChunkIndex(offset))
    requires ChunkIndex(offset) < ChunkCount(|Resolve(c.peer.shared, c.peer.received, name).value|)
    ensures Got(name, offset, c, trim)
         == Usable(ChunkAt(Resolve(c.peer.shared, c.peer.received, name).value, ChunkIndex(offset)), offset, trim)
  {
  }

  /** A two-chunk file of zero bytes. */
  function Sample(): (file: Bytes)
    ensures |file| == 2 * CHUNK_SIZE
  {
    seq(2 * CHUNK_SIZE, i => 0)
  }
  const ME := Endpoint("10.0.0.1", 6000)
  /** A peer holding the whole two-chunk sample. */
  const FULL := Candidate(PeerEntry("a", "10.0.0.2", 6000), Seeding(map["f" := Sample()], map[]))

  /** A peer partway through its own download of the sample, holding its first `n` bytes. */
  function PartOf(n: nat): Candidate
    requires n <= 2 * CHUNK_SIZE
  {
    Candidate(PeerEntry("b", "10.0.0.3", 6000), Seeding(map[], map["f" := Sample()[..n]]))
  }

  lemma SampleHeld()
    ensures Holder(FULL, "f", Sample(), ME) && HasHolder([FULL], "f", Sample(), ME)
    ensures forall n: nat :: n <= 2 * CHUNK_SIZE ==> PartialPeer(PartOf(n).peer, "f", Sample())
  {
    forall n: nat | n <= 2 * CHUNK_SIZE
      ensures PartialPeer(PartOf(n).peer, "f", Sample())
    {
      var held := Sample()[..n];
      assert Resolve(map[], map["f" := held], "f") == Some(held);
      assert held == Sample()[..|held|];
    }
  }

  /** A loop pass below the size is one step followed by the remaining rounds. */
  lemma RunStep(name: string, me: Endpoint, size: nat, st: Transfer, rounds: seq<seq<Candidate>>, trim: bool)
    requires st.offset < size && |rounds| > 0
    ensures Run(name, me, size, st, rounds, trim)
         == Run(name, me, size, StepWith(name, me, st, rounds[0], trim).next, rounds[1..], trim)
  {
  }

  /** Asked at any counter below its size, the holder of the sample sends a whole chunk. */
  lemma FullAnswers(offset: nat, trim: bool)
    requires offset < 2 * CHUNK_SIZE
    ensures Got("f", offset, FULL, trim) == Usable(ChunkAt(Sample(), ChunkIndex(offset)), offset, trim)
    ensures |ChunkAt(Sample(), ChunkIndex(offset))| == CHUNK_SIZE
  {
    assert ChunkIndex(offset) < 2 == ChunkCount(2 * CHUNK_SIZE);
    ServedChunk("f", offset, FULL, trim);
  }

  /** The peer holding CHUNK_SIZE + 5 bytes of the sample sends five bytes for chunk 1. */
  lemma PartialAnswers()
    ensures |Got("f", CHUNK_SIZE, PartOf(CHUNK_SIZE + 5), false)| == 5
  {
    assert ChunkIndex(CHUNK_SIZE) == 1 && ChunkCount(CHUNK_SIZE + 5) == 2;
    ServedChunk("f", CHUNK_SIZE, PartOf(CHUNK_SIZE + 5), false);
  }

  /** The three rounds of `PartialPeerCorrupts` as written: the counter overshoots by five bytes. */
  lemma PartialPeerRunAsWritten(store: Progress.Store)
    ensures Run("f", ME, 2 * CHUNK_SIZE, Transfer(0, [], store), [[FULL], [PartOf(CHUNK_SIZE + 5)], [FULL]], false).offset
         == 2 * CHUNK_SIZE + 5
  {
    var st := Transfer(0, [], store);
    var rounds := [[FULL], [PartOf(CHUNK_SIZE + 5)], [FULL]];
    FullAnswers(0, false);
    OneCandidateRound("f", ME, st, FULL, false);
    var s1 := StepWith("f", ME, st, rounds[0], false).next;
    assert s1.offset == CHUNK_SIZE;
    RunStep("f", ME, 2 * CHUNK_SIZE, st, rounds, false);
    assert rounds[1..] == [[PartOf(CHUNK_SIZE + 5)], [FULL]];
    PartialPeerRunFromChunkOne(s1);
  }

  /** Rounds two and three: five bytes from the partial peer, then chunk 1 whole. */
  lemma PartialPeerRunFromChunkOne(s1: Transfer)
    requires s1.offset == CHUNK_SIZE
    ensures Run("f", ME, 2 * CHUNK_SIZE, s1, [[PartOf(CHUNK_SIZE + 5)], [FULL]], false).offset == 2 * CHUNK_SIZE + 5
  {
    var b := PartOf(CHUNK_SIZE + 5);
    var rounds := [[b], [FULL]];
    PartialAnswers();
    OneCandidateRound("f", ME, s1, b, false);
    var s2 := StepWith("f", ME, s1, rounds[0], false).next;
    assert s2.offset == CHUNK_SIZE + 5;
    RunStep("f", ME, 2 * CHUNK_SIZE, s1, rounds, false);
    assert rounds[1..] == [[FULL]];
    PartialPeerRunLastRound(s2);
  }

  /** Round three: chunk 1 whole, appended at byte CHUNK_SIZE + 5. */
  lemma PartialPeerRunLastRound(s2: Transfer)
    requires s2.offset == CHUNK_SIZE + 5
    ensures Run("f", ME, 2 * CHUNK_SIZE, s2, [[FULL]], false).offset == 2 * CHUNK_SIZE + 5
  {
    var rounds := [[FULL]];
    FullAnswers(CHUNK_SIZE + 5, false);
    OneCandidateRound("f", ME, s2, FULL, false);
    var s3 := StepWith("f", ME, s2, rounds[0], false).next;
    assert s3.offset == 2 * CHUNK_SIZE + 5;
    RunStep("f", ME, 2 * CHUNK_SIZE, s2, rounds, false);
    assert Run("f", ME, 2 * CHUNK_SIZE, s3, rounds[1..], false) == s3;
  }

  /** Against the size CHUNK_SIZE, one round with the holder ends the loop on the sample's first chunk. */
  lemma TruncatedRun(store: Progress.Store, trim: bool)
    ensures var end := Run("f", ME, CHUNK_SIZE, Transfer(0, [], store), [[FULL], [FULL]], trim);
      end.offset == CHUNK_SIZE && end.local == Sample()[..CHUNK_SIZE]
  {
    var st := Transfer(0, [], store);
    var rounds := [[FULL], [FULL]];
    FullAnswers(0, trim);
    assert Got("f", 0, FULL, trim) == Sample()[..CHUNK_SIZE];
    OneCandidateRound("f", ME, st, FULL, trim);
    var s1 := StepWith("f", ME, st, rounds[0], trim).next;
    assert s1.offset == CHUNK_SIZE && s1.local == Sample()[..CHUNK_SIZE];
    RunStep("f", ME, CHUNK_SIZE, st, rounds, trim);
    assert Run("f", ME, CHUNK_SIZE, s1, rounds[1..], trim) == s1;
  }

  /**
    A peer partway through its own download holds the first CHUNK_SIZE + 5 bytes and
    wins the second round with a five-byte chunk. As written the third round appends
    chunk 1 whole at byte CHUNK_SIZE + 5, and the download completes with five bytes
    too many. The corrected download among the same peers can only end with the file.
   */
  lemma PartialPeerCorrupts()
    ensures var rounds := [[FULL], [PartOf(CHUNK_SIZE + 5)], [FULL]];
      var asWritten := DownloadFile("f", ME, Progress.Missing, None, [FULL], rounds, false);
      var fixed := DownloadFileFixed("f", ME, Progress.Missing, None, [FULL], rounds);
      PartialRound([FULL, PartOf(CHUNK_SIZE + 5)], "f", Sample())
      && asWritten.outcome == Completed && asWritten.local.Some? && |asWritten.local.value| == 2 * CHUNK_SIZE + 5
      && (Done(fixed.outcome) ==> fixed.local == Some(Sample()))
  {
    var b := PartOf(CHUNK_SIZE + 5);
    var rounds := [[FULL], [b], [FULL]];
    SampleHeld();
    assert PartialRound([FULL, b], "f", Sample()) && PartialRound([FULL], "f", Sample()) && PartialRound([b], "f", Sample());
    assert PartialRounds(rounds, "f", Sample());
    assert ReportedSize("f", ME, FULL) == Some(2 * CHUNK_SIZE);
    assert Discover("f", ME, [FULL]).result == SizeReported(2 * CHUNK_SIZE);
    var store := Progress.Load(Progress.Missing);
    var st := Transfer(0, [], Progress.Remove(store, "f"));
    assert Reconcile("f", 2 * CHUNK_SIZE, None, store) == Fetch(st);
    PartialPeerRunAsWritten(Progress.Remove(store, "f"));
    FixedDownloadIsPrefix("f", ME, Progress.Missing, None, [FULL], rounds, Sample());
  }

  /** After discovery of the size CHUNK_SIZE, the download completes with the sample's first chunk. */
  lemma TruncatedRetrieve(trim: bool)
    ensures var f := Retrieve("f", ME, CHUNK_SIZE, None, Progress.Load(Progress.Missing), [[FULL], [FULL]], trim);
      f.outcome == Completed && f.local == Some(Sample()[..CHUNK_SIZE])
  {
    var store := Progress.Load(Progress.Missing);
    var st := Transfer(0, [], Progress.Remove(store, "f"));
    assert Reconcile("f", CHUNK_SIZE, None, store) == Fetch(st);
    TruncatedRun(Progress.Remove(store, "f"), trim);
  }

  /**
    A peer partway through its own download, listed first, reports the size of its
    first chunk. As written, trimmed or not, the download completes with that chunk
    alone; the corrected download takes the largest size and ends with the file.
   */
  lemma PartialPeerTruncates()
    ensures var listed := [PartOf(CHUNK_SIZE), FULL];
      var asWritten := DownloadFile("f", ME, Progress.Missing, None, listed, [[FULL], [FULL]], false);
      var trimmed := DownloadFile("f", ME, Progress.Missing, None, listed, [[FULL], [FULL]], true);
      var fixed := DownloadFileFixed("f", ME, Progress.Missing, None, listed, [[FULL], [FULL]]);
      PartialRound(listed, "f", Sample())
      && asWritten.outcome == Completed && asWritten.local == Some(Sample()[..CHUNK_SIZE])
      && trimmed.outcome == Completed && trimmed.local == Some(Sample()[..CHUNK_SIZE])
      && fixed.outcome == Completed && fixed.local == Some(Sample())
  {
    var b := PartOf(CHUNK_SIZE);
    var listed := [b, FULL];
    var rounds := [[FULL], [FULL]];
    SampleHeld();
    assert PartialRound(listed, "f", Sample());
    assert ReportedSize("f", ME, b) == Some(CHUNK_SIZE);
    assert Discover("f", ME, listed).result == SizeReported(CHUNK_SIZE);
    TruncatedRetrieve(false);
    TruncatedRetrieve(true);
    assert DownloadFile("f", ME, Progress.Missing, None, listed, rounds, false)
        == Retrieve("f", ME, CHUNK_SIZE, None, Progress.Load(Progress.Missing), rounds, false);
    assert DownloadFile("f", ME, Progress.Missing, None, listed, rounds, true)
        == Retrieve("f", ME, CHUNK_SIZE, None, Progress.Load(Progress.Missing), rounds, true);
    PartialPeerTruncatesFixed();
  }

  /** The corrected download of `PartialPeerTruncates` learns the whole size and completes. */
  lemma PartialPeerTruncatesFixed()
    ensures var fixed := DownloadFileFixed("f", ME, Progress.Missing, None, [PartOf(CHUNK_SIZE), FULL], [[FULL], [FULL]]);
      fixed.outcome == Completed && fixed.local == Some(Sample())
  {
    var listed := [PartOf(CHUNK_SIZE), FULL];
    SampleHeld();
    assert PartialRound(listed, "f", Sample()) && HasHolder(listed, "f", Sample(), ME);
    LargestReportIsFileSize("f", ME, listed, Sample());
    assert DownloadFileFixed("f", ME, Progress.Missing, None, listed, [[FULL], [FULL]])
        == Retrieve("f", ME, 2 * CHUNK_SIZE, None, Progress.Load(Progress.Missing), [[FULL], [FULL]], true);
    SampleRetrieveCompletes();
  }

  /** Knowing the whole size, two rounds with the holder fetch the sample. */
  lemma SampleRetrieveCompletes()
    ensures var f := Retrieve("f", ME, 2 * CHUNK_SIZE, None, Progress.Load(Progress.Missing), [[FULL], [FULL]], true);
      f.outcome == Completed && f.local == Some(Sample())
  {
    var rounds := [[FULL], [FULL]];
    var store := Progress.Load(Progress.Missing);
    SampleHeld();
    assert HonestRounds(rounds, "f", Sample()) && HeldInEveryRound(rounds, "f", Sample(), ME);
    RetrieveIsPrefix("f", ME, None, store, rounds, true, Sample());
    var st := Transfer(0, [], Progress.Remove(store, "f"));
    assert Reconcile("f", 2 * CHUNK_SIZE, None, store) == Fetch(st);
    assert PrefixAt(st.local, st.offset, Sample());
    RunCompletes("f", ME, st, rounds, true, Sample());
  }
}
