/**
  What a listener makes of the bytes it receives on one connection: the JSON
  object is reduced to the keys the handlers read, each possibly absent.
 */
module Wire {
  import opened Wrappers

  /** The keys the tracker and seeder handlers read; an absent key is None. */
  datatype Message = Message(
    command: Option<string>,
    peerId: Option<string>,
    ip: Option<string>,
    port: Option<int>,
    files: Option<seq<string>>,
    filename: Option<string>,
    chunkIndex: Option<int>)

  /** One connection's request as the handler sees it after `recv`, `decode` and `json.loads`. */
  datatype Inbound =
    | NoData               // the peer closed without sending anything
    | NotText              // the bytes are not UTF-8: `decode` raises
    | NotJson              // `json.loads` raises JSONDecodeError
    | NotAnObject          // valid JSON, but `.get` fails on it (a list, a number, ...)
    | Object(msg: Message)

  /** A message with no keys, to be filled in with `.(key := ...)`. */
  const Blank: Message := Message(None, None, None, None, None, None, None)
}
