/**
 * The client's connection table, as a sequential model.
 *
 * The table maps the text of a server address to the connection dialed to
 * it; a connection is represented by the peer it reaches and every byte
 * written to it so far. Whether a dial or a write succeeds is decided by the
 * network, so it comes in as a parameter. Writes that run concurrently in
 * the program are applied one after another here: every write sends the same
 * frame, so the bytes each peer ends up with do not depend on the order, and
 * the results are a multiset because the program collects them in completion
 * order.
 */
module Clients {
  import opened Wrappers
  import opened SocketAddrs
  import opened Utf8

  /** A dialed connection: the peer it reaches and the bytes written to it, oldest first. */
  datatype Connection = Connection(remote: SocketAddr, sent: Bytes)

  datatype Client = Client(address: SocketAddr, serverAddresses: seq<SocketAddr>, connections: map<string, Connection>)

  datatype WriteError =
    | NoPeerAtAddress(key: string)
    /** The connection's own write failed; its reason is not part of this model. */
    | Transport

  type WriteResult = Result<(), WriteError>

  /** The outcome of `write_to`: the client afterwards and the result. */
  datatype Written = Written(client: Client, result: WriteResult)

  /** The outcome of `write_many` and `broadcast`: the client afterwards and one result per write. */
  datatype Batch = Batch(client: Client, results: multiset<WriteResult>)

  /** `Client::new`: no connections yet. */
  function New(address: SocketAddr, serverAddresses: seq<SocketAddr>): (c: Client)
    ensures c.address == address && c.serverAddresses == serverAddresses
    ensures |c.connections| == 0
  {
    Client(address, serverAddresses, map[])
  }

  /* ----- run ----- */

  /** The keys of the addresses whose dial succeeded. */
  function Dialed(addrs: seq<SocketAddr>, dialed: seq<bool>): set<string>
    requires |dialed| == |addrs|
  {
    set i | 0 <= i < |addrs| && dialed[i] :: Key(addrs[i])
  }

  /** The insert loop of `run`, in address order: each successful dial replaces what the key held. */
  function Connect(conns: map<string, Connection>, addrs: seq<SocketAddr>, dialed: seq<bool>): map<string, Connection>
    requires |dialed| == |addrs|
    decreases |addrs|
  {
    if addrs == [] then conns
    else
      var conns' := if dialed[0] then conns[Key(addrs[0]) := Connection(addrs[0], [])] else conns;
      Connect(conns', addrs[1..], dialed[1..])
  }

  /** `Client::run`, given which of the server addresses could be dialed. */
  function Run(c: Client, dialed: seq<bool>): Client
    requires |dialed| == |c.serverAddresses|
  {
    c.(connections := Connect(c.connections, c.serverAddresses, dialed))
  }

  /* ----- Writes ----- */

  /** What a connection's `write` puts on the wire: the message and the newline delimiter. */
  function Frame(msg: Bytes): Bytes {
    msg + [NEWLINE]
  }

  function Report(ok: bool): WriteResult {
    if ok then Success(()) else Failure(Transport)
  }

  /** One write over a connection; a failed write is taken to send nothing. */
  function Deliver(conn: Connection, msg: Bytes, ok: bool): Connection {
    if ok then conn.(sent := conn.sent + Frame(msg)) else conn
  }

  /** `Client::write_to`, given whether the connection's write succeeds. */
  function WriteTo(c: Client, key: string, msg: Bytes, ok: bool): Written {
    if key in c.connections then
      Written(c.(connections := c.connections[key := Deliver(c.connections[key], msg, ok)]), Report(ok))
    else
      Written(c, Failure(NoPeerAtAddress(key)))
  }

  /** The writes of `write_many`, one per requested key, applied in request order. */
  function Writes(conns: map<string, Connection>, keys: seq<string>, msg: Bytes, ok: seq<bool>): map<string, Connection>
    requires |ok| == |keys|
    requires forall i :: 0 <= i < |keys| ==> keys[i] in conns
    decreases |keys|
  {
    if keys == [] then conns
    else
      var conns' := conns[keys[0] := Deliver(conns[keys[0]], msg, ok[0])];
      Writes(conns', keys[1..], msg, ok[1..])
  }

  function Reports(ok: seq<bool>): multiset<WriteResult> {
    if ok == [] then multiset{} else multiset{Report(ok[0])} + Reports(ok[1..])
  }

  /**
   * `Client::write_many`, given whether each write succeeds. The program
   * unwraps the table lookup, so every key must be in the table.
   */
  function WriteMany(c: Client, keys: seq<string>, msg: Bytes, ok: seq<bool>): Batch
    requires |ok| == |keys|
    requires forall i :: 0 <= i < |keys| ==> keys[i] in c.connections
  {
    Batch(c.(connections := Writes(c.connections, keys, msg, ok)), Reports(ok))
  }

  /** `order` lists every key of the table exactly once. */
  predicate Enumerates(order: seq<string>, conns: map<string, Connection>) {
    (forall i :: 0 <= i < |order| ==> order[i] in conns) &&
    (forall k :: k in conns ==> k in order) &&
    (forall i, j :: 0 <= i < j < |order| ==> order[i] != order[j])
  }

  /**
   * `Client::broadcast`: `write_many` over a snapshot of the table's keys,
   * taken in the table's iteration order, which is given as `order`.
   */
  function Broadcast(c: Client, order: seq<string>, msg: Bytes, ok: seq<bool>): Batch
    requires Enumerates(order, c.connections) && |ok| == |order|
  {
    WriteMany(c, order, msg, ok)
  }
}
