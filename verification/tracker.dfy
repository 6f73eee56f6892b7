/**
  The tracker's peer registry. Each request handler is one atomic transition:
  a decoded request and the current time (whole seconds) go in, the new registry
  and the reply (if any is sent) come out. The periodic status pass is a second
  transition over the same map.
 */
module Tracker {
  import opened Wrappers
  import opened Wire

  datatype Status = Active | Inactive

  /** What the tracker keeps per peer id; `lastSeen` is the second of the last contact. */
  datatype PeerRecord = PeerRecord(ip: string, port: int, files: seq<string>, status: Status, lastSeen: nat)

  type Registry = map<string, PeerRecord>

  /** One element of a GET_PEERS_WITH_FILE reply. */
  datatype PeerEntry = PeerEntry(peerId: string, ip: string, port: int)

  datatype TrackerReply =
    | Registered
    | FilesUpdated
    | PeerList(peers: set<PeerEntry>)
    | NetworkStatus(snapshot: Registry)
    | Pong

  datatype Handled = Handled(registry: Registry, reply: Option<TrackerReply>)

  /** A record seen this many seconds ago or earlier is inactive. */
  const LIVENESS_WINDOW: nat := 30

  /** REGISTER and UPDATE_FILES read peer_id, ip, port and files. */
  predicate Announces(m: Message) {
    m.peerId.Some? && m.ip.Some? && m.port.Some? && m.files.Some?
  }

  /** The record REGISTER writes: address and files from the message, active, seen now. */
  function Announced(m: Message, now: nat): PeerRecord
    requires Announces(m)
  {
    PeerRecord(m.ip.value, m.port.value, m.files.value, Active, now)
  }

  /** Peers whose file list mentions `filename` and whose status is active. */
  function Offering(reg: Registry, filename: string): (s: set<PeerEntry>)
    ensures forall e :: e in s <==>
      e.peerId in reg && filename in reg[e.peerId].files && reg[e.peerId].status == Active
      && e.ip == reg[e.peerId].ip && e.port == reg[e.peerId].port
  {
    set id | id in reg && filename in reg[id].files && reg[id].status == Active
      :: PeerEntry(id, reg[id].ip, reg[id].port)
  }

  /** PING: a known peer is seen now and active again; an unknown id changes nothing. */
  function Touch(reg: Registry, id: string, now: nat): (r: Registry)
    ensures r.Keys == reg.Keys
    ensures id !in reg ==> r == reg
    ensures id in reg ==> r[id] == PeerRecord(reg[id].ip, reg[id].port, reg[id].files, Active, now)
    ensures forall other :: other in reg && other != id ==> r[other] == reg[other]
  {
    if id in reg then reg[id := reg[id].(lastSeen := now, status := Active)] else reg
  }

  /**
    The command dispatch. A command without a branch, or a missing key, sends nothing
    and changes nothing; only REGISTER and UPDATE_FILES add a record, under the sender's id.
   */
  function Dispatch(reg: Registry, m: Message, now: nat): (h: Handled)
    ensures h.reply.None? ==> h.registry == reg
    ensures h.reply.Some? <==>
      (m.command in {Some("REGISTER"), Some("UPDATE_FILES")} && Announces(m))
      || (m.command == Some("GET_PEERS_WITH_FILE") && m.filename.Some?)
      || m.command == Some("GET_NETWORK_STATUS")
      || (m.command == Some("PING") && m.peerId.Some?)
    ensures reg.Keys <= h.registry.Keys
    ensures h.registry.Keys != reg.Keys ==>
      m.command in {Some("REGISTER"), Some("UPDATE_FILES")} && h.registry.Keys == reg.Keys + {m.peerId.value}
  {
    if m.command == Some("REGISTER") then
      if Announces(m) then Handled(reg[m.peerId.value := Announced(m, now)], Some(Registered))
      else Handled(reg, None)
    else if m.command == Some("UPDATE_FILES") then
      if Announces(m) then
        var reply := if m.peerId.value in reg then FilesUpdated else Registered;
        Handled(reg[m.peerId.value := Announced(m, now)], Some(reply))
      else Handled(reg, None)
    else if m.command == Some("GET_PEERS_WITH_FILE") then
      if m.filename.Some? then Handled(reg, Some(PeerList(Offering(reg, m.filename.value))))
      else Handled(reg, None)
    else if m.command == Some("GET_NETWORK_STATUS") then
      Handled(reg, Some(NetworkStatus(reg)))
    else if m.command == Some("PING") then
      if m.peerId.Some? then Handled(Touch(reg, m.peerId.value, now), Some(Pong))
      else Handled(reg, None)
    else
      Handled(reg, None)
  }

  /**
    `handle_peer` with every failure atomic: empty data, undecodable or non-object
    JSON and missing keys leave the registry as it was and send nothing.
   */
  function Handle(reg: Registry, inbound: Inbound, now: nat): (h: Handled)
    ensures h.reply.None? ==> h.registry == reg
    ensures reg.Keys <= h.registry.Keys
  {
    match inbound
    case Object(m) => Dispatch(reg, m, now)
    case _ => Handled(reg, None)
  }

  /** UPDATE_FILES for a known peer whose message lacks ip, port or files. */
  predicate PartialUpdateCase(reg: Registry, m: Message) {
    m.command == Some("UPDATE_FILES") && m.peerId.Some? && m.peerId.value in reg && !Announces(m)
  }

  /**
    The known-peer UPDATE_FILES branch as written: ip, port and files are assigned
    one key at a time, so the KeyError for a missing key leaves the earlier ones written.
   */
  function PartialUpdate(reg: Registry, id: string, m: Message): (r: Registry)
    requires id in reg
    requires m.ip.None? || m.port.None? || m.files.None?
    ensures r.Keys == reg.Keys
    ensures forall other :: other in reg && other != id ==> r[other] == reg[other]
    ensures r[id].files == reg[id].files && r[id].status == reg[id].status && r[id].lastSeen == reg[id].lastSeen
    ensures r[id].ip == (if m.ip.Some? then m.ip.value else reg[id].ip)
    ensures r[id].port == (if m.ip.Some? && m.port.Some? then m.port.value else reg[id].port)
  {
    var rec := reg[id];
    if m.ip.None? then reg
    else if m.port.None? then reg[id := rec.(ip := m.ip.value)]
    else reg[id := rec.(ip := m.ip.value, port := m.port.value)]
  }

  /** `handle_peer` exactly as written, including the half-applied update. */
  function HandleAsWritten(reg: Registry, inbound: Inbound, now: nat): (h: Handled)
    ensures reg.Keys == h.registry.Keys || h.reply.Some?
  {
    match inbound
    case Object(m) =>
      if PartialUpdateCase(reg, m) then Handled(PartialUpdate(reg, m.peerId.value, m), None)
      else Dispatch(reg, m, now)
    case _ => Handled(reg, None)
  }

  /** The two handlers differ only on an UPDATE_FILES for a known peer with a key missing. */
  lemma AsWrittenAgreesOtherwise(reg: Registry, inbound: Inbound, now: nat)
    requires !(inbound.Object? && PartialUpdateCase(reg, inbound.msg))
    ensures HandleAsWritten(reg, inbound, now) == Handle(reg, inbound, now)
  {
  }

  /** A known peer, an UPDATE_FILES with ip but no port: the ip changes and nothing is sent. */
  lemma PartialUpdateCounterexample()
    ensures var reg := map["p" := PeerRecord("10.0.0.1", 5000, ["a.txt"], Active, 0)];
      var m := Blank.(command := Some("UPDATE_FILES"), peerId := Some("p"), ip := Some("10.0.0.2"));
      var h := HandleAsWritten(reg, Object(m), 7);
      h.reply.None? && h.registry != reg && h.registry["p"].ip == "10.0.0.2"
  {
    var reg := map["p" := PeerRecord("10.0.0.1", 5000, ["a.txt"], Active, 0)];
    var m := Blank.(command := Some("UPDATE_FILES"), peerId := Some("p"), ip := Some("10.0.0.2"));
    assert PartialUpdateCase(reg, m);
    assert HandleAsWritten(reg, Object(m), 7).registry["p"].ip == "10.0.0.2";
  }

  /** REGISTER replaces the whole record and touches no other peer. */
  lemma RegisterReplaces(reg: Registry, m: Message, now: nat)
    requires m.command == Some("REGISTER") && Announces(m)
    ensures var h := Handle(reg, Object(m), now);
      h.reply == Some(Registered)
      && m.peerId.value in h.registry
      && h.registry[m.peerId.value] == PeerRecord(m.ip.value, m.port.value, m.files.value, Active, now)
      && forall id :: id != m.peerId.value ==> (id in h.registry <==> id in reg) && (id in reg ==> h.registry[id] == reg[id])
  {
  }

  /** Registering twice keeps only the second file list: replace, not merge. */
  lemma RegisterTwiceKeepsSecondFiles(reg: Registry, m1: Message, m2: Message, t1: nat, t2: nat)
    requires m1.command == Some("REGISTER") && Announces(m1)
    requires m2.command == Some("REGISTER") && Announces(m2) && m2.peerId == m1.peerId
    ensures var h := Handle(Handle(reg, Object(m1), t1).registry, Object(m2), t2);
      h.registry[m2.peerId.value].files == m2.files.value
  {
  }

  /**
    UPDATE_FILES leaves the registry REGISTER would, whether or not the peer is known;
    only the reply tells the two apart.
   */
  lemma UpdateFilesActsAsRegister(reg: Registry, m: Message, now: nat)
    requires m.command == Some("UPDATE_FILES") && Announces(m)
    ensures var h := Handle(reg, Object(m), now);
      var r := Handle(reg, Object(m.(command := Some("REGISTER"))), now);
      h.registry == r.registry
      && h.reply == Some(if m.peerId.value in reg then FilesUpdated else Registered)
  {
  }

  /** The two queries change nothing; the peer list is exactly the active holders of the file. */
  lemma QueriesAreReadOnly(reg: Registry, m: Message, now: nat)
    requires m.command == Some("GET_PEERS_WITH_FILE") || m.command == Some("GET_NETWORK_STATUS")
    ensures var h := Handle(reg, Object(m), now);
      h.registry == reg
      && (m.command == Some("GET_NETWORK_STATUS") ==> h.reply == Some(NetworkStatus(reg)))
      && (m.command == Some("GET_PEERS_WITH_FILE") && m.filename.Some? ==>
            h.reply.Some? && h.reply.value.PeerList?
            && forall e :: e in h.reply.value.peers <==>
                 e.peerId in reg && m.filename.value in reg[e.peerId].files && reg[e.peerId].status == Active
                 && e.ip == reg[e.peerId].ip && e.port == reg[e.peerId].port)
  {
  }

  /** PING always answers PONG; it refreshes a known peer's time and status and nothing else. */
  lemma PingRefreshes(reg: Registry, m: Message, now: nat)
    requires m.command == Some("PING") && m.peerId.Some?
    ensures var h := Handle(reg, Object(m), now);
      var id := m.peerId.value;
      h.reply == Some(Pong)
      && h.registry.Keys == reg.Keys
      && (id !in reg ==> h.registry == reg)
      && (id in reg ==>
            h.registry[id].lastSeen == now && h.registry[id].status == Active
            && h.registry[id].ip == reg[id].ip && h.registry[id].port == reg[id].port
            && h.registry[id].files == reg[id].files)
      && forall other :: other in reg && other != id ==> h.registry[other] == reg[other]
  {
  }

  /** A command the dispatch has no branch for, or a request that is not a JSON object, is ignored silently. */
  lemma UnknownRequestsIgnored(reg: Registry, inbound: Inbound, now: nat)
    requires !inbound.Object? || inbound.msg.command !in
      {Some("REGISTER"), Some("UPDATE_FILES"), Some("GET_PEERS_WITH_FILE"), Some("GET_NETWORK_STATUS"), Some("PING")}
    ensures Handle(reg, inbound, now) == Handled(reg, None)
  {
  }

  /** All contact times are at most `now`. */
  predicate SeenBy(reg: Registry, now: nat) {
    forall id :: id in reg ==> reg[id].lastSeen <= now
  }

  /**
    With a clock that does not go back, contact times only grow and no record is ever
    dropped, for the handler as written and for the atomic one alike.
   */
  lemma ContactTimesNeverDecrease(reg: Registry, inbound: Inbound, before: nat, now: nat)
    requires SeenBy(reg, before) && before <= now
    ensures var h := HandleAsWritten(reg, inbound, now);
      SeenBy(h.registry, now)
      && reg.Keys <= h.registry.Keys
      && forall id :: id in reg ==> reg[id].lastSeen <= h.registry[id].lastSeen
    ensures var h := Handle(reg, inbound, now);
      SeenBy(h.registry, now)
      && reg.Keys <= h.registry.Keys
      && forall id :: id in reg ==> reg[id].lastSeen <= h.registry[id].lastSeen
  {
  }

  /** `now - last_seen < 30` keeps a record's status; otherwise it becomes inactive. */
  predicate Stale(rec: PeerRecord, now: nat) {
    now - rec.lastSeen >= LIVENESS_WINDOW
  }

  function Age(rec: PeerRecord, now: nat): PeerRecord {
    if Stale(rec, now) then rec.(status := Inactive) else rec
  }

  /** The status flip of `print_status`: it only ever deactivates, never removes, and changes no other field. */
  function Sweep(reg: Registry, now: nat): (swept: Registry)
    ensures swept.Keys == reg.Keys
    ensures forall id :: id in reg ==>
      swept[id].ip == reg[id].ip && swept[id].port == reg[id].port
      && swept[id].files == reg[id].files && swept[id].lastSeen == reg[id].lastSeen
    ensures forall id :: id in reg && Stale(reg[id], now) ==> swept[id].status == Inactive
    ensures forall id :: id in reg && !Stale(reg[id], now) ==> swept[id].status == reg[id].status
    ensures forall id :: id in reg && swept[id].status == Active ==> reg[id].status == Active
  {
    map id | id in reg :: Age(reg[id], now)
  }

  /** After a sweep, a file query lists only peers heard from within the window. */
  lemma SweptOfferingIsFresh(reg: Registry, now: nat, filename: string)
    ensures forall e :: e in Offering(Sweep(reg, now), filename) ==>
      e.peerId in reg && !Stale(reg[e.peerId], now)
  {
  }

  /** A stale peer stays in the network status, marked inactive, and drops out of every file query. */
  lemma StalePeerHiddenButListed(reg: Registry, now: nat, id: string, filename: string)
    requires id in reg && Stale(reg[id], now)
    ensures var swept := Sweep(reg, now);
      id in swept && swept[id].status == Inactive
      && Handle(swept, Object(Blank.(command := Some("GET_NETWORK_STATUS"))), now).reply == Some(NetworkStatus(swept))
      && forall e :: e in Offering(swept, filename) ==> e.peerId != id
  {
  }
}
