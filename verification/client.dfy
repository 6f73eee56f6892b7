/**
  The peer's side of the tracker protocol: `send_json`'s attempt and retry policy
  over explicit attempt outcomes, the registration message, and how each helper
  reads the tracker's reply.
 */
module Client {
  import opened Wrappers
  import opened Wire
  import opened Tracker

  /** How one connection attempt of `send_json` ends. */
  datatype Attempt<T> =
    | TimedOut          // socket.timeout: retried
    | Refused           // ConnectionRefusedError: retried
    | Failed            // any other exception: give up at once
    | Empty             // the other side closed without a reply: None, no retry
    | Garbled           // the reply is not JSON: None, no retry
    | Decoded(value: T) // the parsed reply

  /** Only a timeout or a refused connection leads to another attempt. */
  predicate Retried<T>(a: Attempt<T>) {
    a.TimedOut? || a.Refused?
  }

  /** The reply `send_json` returns and how many attempts it made. */
  datatype Sent<T> = Sent(reply: Option<T>, attempts: nat)

  /** `send_json`'s default `retries`. */
  const DEFAULT_RETRIES: int := 3

  /** Attempts k, k+1, ... of the `for attempt in range(retries)` loop. */
  function SendFrom<T>(outcomes: seq<Attempt<T>>, retries: int, k: nat): (r: Sent<T>)
    requires retries <= |outcomes| && k <= |outcomes|
    ensures k <= r.attempts
    ensures r.attempts <= k || r.attempts <= retries
    ensures forall j :: k <= j < r.attempts - 1 ==> Retried(outcomes[j])
    ensures r.attempts < retries ==> k < r.attempts && !Retried(outcomes[r.attempts - 1])
    ensures r.reply.Some? <==> k < r.attempts && outcomes[r.attempts - 1].Decoded?
    ensures r.reply.Some? ==> r.reply.value == outcomes[r.attempts - 1].value
    decreases |outcomes| - k
  {
    if k >= retries then Sent(None, k)
    else match outcomes[k]
      case TimedOut => SendFrom(outcomes, retries, k + 1)
      case Refused => SendFrom(outcomes, retries, k + 1)
      case Decoded(v) => Sent(Some(v), k + 1)
      case _ => Sent(None, k + 1)
  }

  /**
    `send_json`: at most `retries` attempts, another one only after a timeout or a
    refusal; the first other outcome decides, and running out of attempts gives None.
   */
  function SendJson<T>(outcomes: seq<Attempt<T>>, retries: int): (r: Sent<T>)
    requires retries <= |outcomes|
    ensures retries <= 0 ==> r == Sent(None, 0)
    ensures retries > 0 ==> 1 <= r.attempts <= retries
    ensures forall j :: 0 <= j < r.attempts - 1 ==> Retried(outcomes[j])
    ensures 0 < r.attempts < retries ==> !Retried(outcomes[r.attempts - 1])
    ensures r.reply.Some? <==> 0 < r.attempts && outcomes[r.attempts - 1].Decoded?
    ensures r.reply.Some? ==> r.reply.value == outcomes[r.attempts - 1].value
  {
    SendFrom(outcomes, retries, 0)
  }

  /** When every attempt times out or is refused, all `retries` are used and the result is None. */
  lemma AllRetriedGivesNone<T>(outcomes: seq<Attempt<T>>, retries: int)
    requires 0 < retries <= |outcomes|
    requires forall j :: 0 <= j < retries ==> Retried(outcomes[j])
    ensures SendJson(outcomes, retries) == Sent(None, retries)
  {
  }

  /** `advertised_ip if advertised_ip else peer_bind_ip`: None and "" both fall back. */
  function AdvertisedIp(bindIp: string, advertised: Option<string>): (ip: string)
    ensures advertised.Some? && advertised.value != "" ==> ip == advertised.value
    ensures advertised.None? || advertised.value == "" ==> ip == bindIp
  {
    if advertised.Some? && advertised.value != "" then advertised.value else bindIp
  }

  /**
    The message `register_or_update_peer` sends: REGISTER on the first registration,
    UPDATE_FILES otherwise; the files are the shared listing followed by the received
    one, so a name in both directories appears twice.
   */
  function Registration(peerId: string, bindIp: string, port: int, shared: seq<string>,
                        received: seq<string>, initial: bool, advertised: Option<string>): (m: Message)
    ensures m.command == Some("REGISTER") <==> initial
    ensures m.peerId == Some(peerId) && m.port == Some(port)
    ensures m.ip == Some(AdvertisedIp(bindIp, advertised))
    ensures m.files.Some? && |m.files.value| == |shared| + |received|
    ensures forall x :: multiset(m.files.value)[x] == multiset(shared)[x] + multiset(received)[x]
  {
    Blank.(command := Some(if initial then "REGISTER" else "UPDATE_FILES"),
           peerId := Some(peerId), ip := Some(AdvertisedIp(bindIp, advertised)),
           port := Some(port), files := Some(shared + received))
  }

  /** The success test of `register_or_update_peer`: only the two registration acknowledgements pass. */
  function Accepted(reply: Option<TrackerReply>): (ok: bool)
    ensures ok ==> reply.Some? && (reply.value.Registered? || reply.value.FilesUpdated?)
    ensures reply.None? || reply.value.PeerList? || reply.value.NetworkStatus? || reply.value.Pong? ==> !ok
  {
    reply == Some(Registered) || reply == Some(FilesUpdated)
  }

  /** `get_peers_with_file`: the reply's list; no reply or any other reply gives the empty list. */
  function PeersOf(reply: Option<TrackerReply>): (peers: set<PeerEntry>)
    ensures reply.Some? && reply.value.PeerList? ==> peers == reply.value.peers
    ensures !(reply.Some? && reply.value.PeerList?) ==> peers == {}
  {
    if reply.Some? && reply.value.PeerList? then reply.value.peers else {}
  }

  /** `get_network_status`: the reply's snapshot; no reply or any other reply gives the empty map. */
  function StatusOf(reply: Option<TrackerReply>): (status: Registry)
    ensures reply.Some? && reply.value.NetworkStatus? ==> status == reply.value.snapshot
    ensures !(reply.Some? && reply.value.NetworkStatus?) ==> status == map[]
  {
    if reply.Some? && reply.value.NetworkStatus? then reply.value.snapshot else map[]
  }

  /**
    `register_or_update_peer` over the attempts `send_json` makes: true exactly when
    the first attempt that is not a timeout or refusal, within three, carries an
    acceptance.
   */
  function RegisterOrUpdate(outcomes: seq<Attempt<TrackerReply>>): (ok: bool)
    requires DEFAULT_RETRIES <= |outcomes|
    ensures ok <==> (exists j :: 0 <= j < DEFAULT_RETRIES && DecidedBy(outcomes, j)
                                 && (outcomes[j] == Decoded(Registered) || outcomes[j] == Decoded(FilesUpdated)))
  {
    var sent := SendJson(outcomes, DEFAULT_RETRIES);
    FirstDecisiveAttempt(outcomes, DEFAULT_RETRIES);
    Accepted(sent.reply)
  }

  /** Attempt j is the first that is neither a timeout nor a refusal. */
  predicate DecidedBy<T>(outcomes: seq<Attempt<T>>, j: nat)
    requires j < |outcomes|
  {
    !Retried(outcomes[j]) && forall i :: 0 <= i < j ==> Retried(outcomes[i])
  }

  /**
    `send_json` stops at the first attempt that is neither a timeout nor a refusal:
    a decoded reply is returned, and any other exception, an empty reply or
    unparseable JSON gives None with no further attempt.
   */
  lemma FirstDecisiveAttempt<T>(outcomes: seq<Attempt<T>>, retries: int)
    requires retries <= |outcomes|
    ensures forall j :: 0 <= j < retries && DecidedBy(outcomes, j) ==>
      SendJson(outcomes, retries).attempts == j + 1
      && SendJson(outcomes, retries).reply == (if outcomes[j].Decoded? then Some(outcomes[j].value) else None)
  {
  }

  /**
    The tracker accepts every registration message: the reply passes the success
    test and the peer's record is exactly what was advertised.
   */
  lemma TrackerAcceptsRegistration(reg: Registry, now: nat, peerId: string, bindIp: string, port: int,
                                   shared: seq<string>, received: seq<string>, initial: bool,
                                   advertised: Option<string>)
    ensures var h := Handle(reg, Object(Registration(peerId, bindIp, port, shared, received, initial, advertised)), now);
      Accepted(h.reply)
      && h.reply == Some(if initial || peerId !in reg then Registered else FilesUpdated)
      && peerId in h.registry
      && h.registry[peerId] == PeerRecord(AdvertisedIp(bindIp, advertised), port, shared + received, Active, now)
  {
  }

  /**
    After a tracker restart (empty registry) the next periodic UPDATE_FILES is
    answered REGISTERED and the peer shows as active in the network status.
   */
  lemma HeartbeatSelfHeals(now: nat, peerId: string, bindIp: string, port: int,
                           shared: seq<string>, received: seq<string>, advertised: Option<string>)
    ensures var h := Handle(map[], Object(Registration(peerId, bindIp, port, shared, received, false, advertised)), now);
      var status := Handle(h.registry, Object(Blank.(command := Some("GET_NETWORK_STATUS"))), now);
      h.reply == Some(Registered)
      && peerId in StatusOf(status.reply) && StatusOf(status.reply)[peerId].status == Active
  {
  }

  /** `get_peers_with_file` against the tracker returns exactly the active peers listing the file. */
  lemma PeerQueryRoundTrip(reg: Registry, now: nat, filename: string)
    ensures var h := Handle(reg, Object(Blank.(command := Some("GET_PEERS_WITH_FILE"), filename := Some(filename))), now);
      forall e :: e in PeersOf(h.reply) <==>
        e.peerId in reg && filename in reg[e.peerId].files && reg[e.peerId].status == Active
        && e.ip == reg[e.peerId].ip && e.port == reg[e.peerId].port
  {
  }

  /** `get_network_status` against the tracker returns the registry itself. */
  lemma StatusQueryRoundTrip(reg: Registry, now: nat)
    ensures StatusOf(Handle(reg, Object(Blank.(command := Some("GET_NETWORK_STATUS"))), now).reply) == reg
  {
  }
}
