/**
 * What the client's table operations promise: `run` adds exactly the
 * successfully dialed addresses, writes reach exactly the peers asked for
 * (one frame per successful write), no write adds or removes an entry, and
 * the scenarios of the client's tests come out as they expect.
 */
module ClientProperties {
  import opened Wrappers
  import opened SocketAddrs
  import opened Utf8
  import opened Clients

  /* ----- run ----- */

  lemma DialedCons(addrs: seq<SocketAddr>, dialed: seq<bool>)
    requires |dialed| == |addrs| && addrs != []
    ensures Dialed(addrs, dialed) == (if dialed[0] then {Key(addrs[0])} else {}) + Dialed(addrs[1..], dialed[1..])
  {
    var rest := Dialed(addrs[1..], dialed[1..]);
    forall k | k in rest
      ensures k in Dialed(addrs, dialed)
    {
      var j :| 0 <= j < |addrs| - 1 && dialed[1..][j] && Key(addrs[1..][j]) == k;
      assert dialed[j + 1] && Key(addrs[j + 1]) == k;
    }
    forall k | k in Dialed(addrs, dialed)
      ensures k in rest || (dialed[0] && k == Key(addrs[0]))
    {
      var j :| 0 <= j < |addrs| && dialed[j] && Key(addrs[j]) == k;
      if j > 0 {
        assert dialed[1..][j - 1] && Key(addrs[1..][j - 1]) == k;
      }
    }
  }

  /** The insert loop adds exactly the dialed keys. */
  lemma {:induction false} ConnectKeys(conns: map<string, Connection>, addrs: seq<SocketAddr>, dialed: seq<bool>)
    requires |dialed| == |addrs|
    ensures Connect(conns, addrs, dialed).Keys == conns.Keys + Dialed(addrs, dialed)
    decreases |addrs|
  {
    if addrs == [] {
      assert Dialed(addrs, dialed) == {};
    } else {
      var conns' := if dialed[0] then conns[Key(addrs[0]) := Connection(addrs[0], [])] else conns;
      ConnectKeys(conns', addrs[1..], dialed[1..]);
      DialedCons(addrs, dialed);
    }
  }

  /** Each dialed address ends up with a fresh connection to it, whichever of its duplicates was dialed last. */
  lemma {:induction false} ConnectFresh(conns: map<string, Connection>, addrs: seq<SocketAddr>, dialed: seq<bool>, i: nat)
    requires |dialed| == |addrs| && i < |addrs| && dialed[i]
    ensures Key(addrs[i]) in Connect(conns, addrs, dialed)
    ensures Connect(conns, addrs, dialed)[Key(addrs[i])] == Connection(addrs[i], [])
    decreases |addrs|, 1
  {
    var conns' := if dialed[0] then conns[Key(addrs[0]) := Connection(addrs[0], [])] else conns;
    var addrs', dialed' := addrs[1..], dialed[1..];
    assert Connect(conns, addrs, dialed) == Connect(conns', addrs', dialed');
    if i > 0 {
      assert dialed'[i - 1] && addrs'[i - 1] == addrs[i];
      ConnectFresh(conns', addrs', dialed', i - 1);
    } else {
      ConnectFirst(conns', addrs, dialed);
    }
  }

  /** The connection inserted for the first address survives the rest of the loop, or is replaced by an equal one. */
  lemma ConnectFirst(conns': map<string, Connection>, addrs: seq<SocketAddr>, dialed: seq<bool>)
    requires |dialed| == |addrs| && addrs != [] && dialed[0]
    requires conns' == conns'[Key(addrs[0]) := Connection(addrs[0], [])]
    ensures Key(addrs[0]) in Connect(conns', addrs[1..], dialed[1..])
    ensures Connect(conns', addrs[1..], dialed[1..])[Key(addrs[0])] == Connection(addrs[0], [])
    decreases |addrs|, 0
  {
    var addrs', dialed' := addrs[1..], dialed[1..];
    if j :| 0 <= j < |addrs'| && dialed'[j] && Key(addrs'[j]) == Key(addrs[0]) {
      KeyInjective(addrs'[j], addrs[0]);
      ConnectFresh(conns', addrs', dialed', j);
    } else {
      ConnectKeeps(conns', addrs', dialed', Key(addrs[0]));
    }
  }

  /** An entry whose key was not dialed keeps its connection. */
  lemma {:induction false} ConnectKeeps(conns: map<string, Connection>, addrs: seq<SocketAddr>, dialed: seq<bool>, k: string)
    requires |dialed| == |addrs| && k in conns
    requires forall j :: 0 <= j < |addrs| && dialed[j] ==> Key(addrs[j]) != k
    ensures k in Connect(conns, addrs, dialed) && Connect(conns, addrs, dialed)[k] == conns[k]
    decreases |addrs|
  {
    if addrs != [] {
      var conns' := if dialed[0] then conns[Key(addrs[0]) := Connection(addrs[0], [])] else conns;
      ConnectKeeps(conns', addrs[1..], dialed[1..], k);
    }
  }

  /** `run`: the table keeps its old keys and gains the key of every address that could be dialed, and nothing else. */
  lemma RunConnects(c: Client, dialed: seq<bool>)
    requires |dialed| == |c.serverAddresses|
    ensures var r := Run(c, dialed);
      r.address == c.address && r.serverAddresses == c.serverAddresses &&
      (forall k :: k in r.connections <==>
        k in c.connections || exists i :: 0 <= i < |dialed| && dialed[i] && Key(c.serverAddresses[i]) == k) &&
      (forall i :: 0 <= i < |dialed| && dialed[i] ==>
        r.connections[Key(c.serverAddresses[i])] == Connection(c.serverAddresses[i], [])) &&
      (forall k :: k in c.connections && k !in Dialed(c.serverAddresses, dialed) ==> r.connections[k] == c.connections[k])
  {
    ConnectKeys(c.connections, c.serverAddresses, dialed);
    forall i | 0 <= i < |dialed| && dialed[i]
      ensures Run(c, dialed).connections[Key(c.serverAddresses[i])] == Connection(c.serverAddresses[i], [])
    {
      ConnectFresh(c.connections, c.serverAddresses, dialed, i);
    }
    forall k | k in c.connections && k !in Dialed(c.serverAddresses, dialed)
      ensures Run(c, dialed).connections[k] == c.connections[k]
    {
      ConnectKeeps(c.connections, c.serverAddresses, dialed, k);
    }
  }

  /** Distinct addresses, all dialed, give as many keys as addresses. */
  lemma {:induction false} DialedCount(addrs: seq<SocketAddr>, dialed: seq<bool>)
    requires |dialed| == |addrs|
    requires forall i :: 0 <= i < |dialed| ==> dialed[i]
    requires forall i, j :: 0 <= i < j < |addrs| ==> addrs[i] != addrs[j]
    ensures |Dialed(addrs, dialed)| == |addrs|
    decreases |addrs|
  {
    if addrs == [] {
      assert Dialed(addrs, dialed) == {};
    } else {
      var addrs', dialed' := addrs[1..], dialed[1..];
      DialedCons(addrs, dialed);
      DialedCount(addrs', dialed');
      forall j | 0 <= j < |addrs'|
        ensures Key(addrs'[j]) != Key(addrs[0])
      {
        assert addrs'[j] == addrs[j + 1];
        KeyDistinct(addrs'[j], addrs[0]);
      }
    }
  }

  /** A new client that dials every one of its distinct servers holds one connection per server. */
  lemma RunFromNew(address: SocketAddr, servers: seq<SocketAddr>, dialed: seq<bool>)
    requires |dialed| == |servers| && forall i :: 0 <= i < |dialed| ==> dialed[i]
    requires forall i, j :: 0 <= i < j < |servers| ==> servers[i] != servers[j]
    ensures |Run(New(address, servers), dialed).connections| == |servers|
  {
    ConnectKeys(map[], servers, dialed);
    DialedCount(servers, dialed);
    assert Run(New(address, servers), dialed).connections.Keys == Dialed(servers, dialed);
  }

  /* ----- write_to ----- */

  /**
   * `write_to` fails with the key it was given when the key is unknown, and
   * otherwise sends one frame to that peer alone when the write succeeds.
   */
  lemma WriteToFrames(c: Client, key: string, msg: Bytes, ok: bool)
    ensures var w := WriteTo(c, key, msg, ok);
      w.client.address == c.address && w.client.serverAddresses == c.serverAddresses &&
      w.client.connections.Keys == c.connections.Keys &&
      (key !in c.connections ==> w.result == Failure(NoPeerAtAddress(key)) && w.client == c) &&
      (key in c.connections ==> w.result.Success? == ok) &&
      (forall k :: k in c.connections ==>
        w.client.connections[k].remote == c.connections[k].remote &&
        w.client.connections[k].sent == c.connections[k].sent + (if k == key && ok then Frame(msg) else []))
  {
  }

  /* ----- write_many ----- */

  /** `n` copies of `f`. */
  function Repeat(f: Bytes, n: nat): (r: Bytes)
    ensures |r| == n * |f|
  {
    if n == 0 then [] else f + Repeat(f, n - 1)
  }

  /** How many of the requested writes to `key` go through. */
  function Delivered(keys: seq<string>, ok: seq<bool>, key: string): nat
    requires |ok| == |keys|
    decreases |keys|
  {
    if keys == [] then 0 else (if keys[0] == key && ok[0] then 1 else 0) + Delivered(keys[1..], ok[1..], key)
  }

  lemma {:induction false} WritesSpec(conns: map<string, Connection>, keys: seq<string>, msg: Bytes, ok: seq<bool>)
    requires |ok| == |keys|
    requires forall i :: 0 <= i < |keys| ==> keys[i] in conns
    ensures Writes(conns, keys, msg, ok).Keys == conns.Keys
    ensures forall k :: k in conns ==>
      Writes(conns, keys, msg, ok)[k] == Connection(conns[k].remote, conns[k].sent + Repeat(Frame(msg), Delivered(keys, ok, k)))
    decreases |keys|
  {
    if keys != [] {
      var conns' := conns[keys[0] := Deliver(conns[keys[0]], msg, ok[0])];
      WritesSpec(conns', keys[1..], msg, ok[1..]);
      forall k | k in conns
        ensures Writes(conns, keys, msg, ok)[k] ==
          Connection(conns[k].remote, conns[k].sent + Repeat(Frame(msg), Delivered(keys, ok, k)))
      {
        var rest := Repeat(Frame(msg), Delivered(keys[1..], ok[1..], k));
        if keys[0] == k && ok[0] {
          assert conns'[k].sent + rest == conns[k].sent + (Frame(msg) + rest);
        } else {
          assert conns'[k].sent == conns[k].sent;
        }
      }
    }
  }

  lemma {:induction false} ReportsCount(ok: seq<bool>)
    ensures |Reports(ok)| == |ok|
    ensures Reports(ok)[Success(())] == multiset(ok)[true]
    ensures Reports(ok)[Failure(Transport)] == multiset(ok)[false]
  {
    if ok != [] {
      ReportsCount(ok[1..]);
      assert ok == [ok[0]] + ok[1..];
      assert multiset(ok) == multiset{ok[0]} + multiset(ok[1..]);
      assert Reports(ok) == multiset{Report(ok[0])} + Reports(ok[1..]);
    }
  }

  lemma {:induction false} DeliveredUnlisted(keys: seq<string>, ok: seq<bool>, key: string)
    requires |ok| == |keys| && key !in keys
    ensures Delivered(keys, ok, key) == 0
    decreases |keys|
  {
    if keys != [] {
      assert keys[0] != key;
      DeliveredUnlisted(keys[1..], ok[1..], key);
    }
  }

  lemma {:induction false} DeliveredListed(keys: seq<string>, ok: seq<bool>, i: nat)
    requires |ok| == |keys| && i < |keys| && ok[i]
    ensures Delivered(keys, ok, keys[i]) >= 1
    decreases |keys|
  {
    if i > 0 {
      DeliveredListed(keys[1..], ok[1..], i - 1);
    }
  }

  /**
   * `write_many`: one result per requested key, as many successes as writes
   * that went through; every peer gets one frame per successful write
   * addressed to it, so unlisted peers get nothing; no entry is added or
   * removed.
   */
  lemma WriteManyFrames(c: Client, keys: seq<string>, msg: Bytes, ok: seq<bool>)
    requires |ok| == |keys|
    requires forall i :: 0 <= i < |keys| ==> keys[i] in c.connections
    ensures var b := WriteMany(c, keys, msg, ok);
      b.client.address == c.address && b.client.serverAddresses == c.serverAddresses &&
      b.client.connections.Keys == c.connections.Keys &&
      |b.results| == |keys| &&
      b.results[Success(())] == multiset(ok)[true] && b.results[Failure(Transport)] == multiset(ok)[false] &&
      (forall k :: k in c.connections ==>
        b.client.connections[k] ==
          Connection(c.connections[k].remote, c.connections[k].sent + Repeat(Frame(msg), Delivered(keys, ok, k)))) &&
      (forall k :: k in c.connections && k !in keys ==> b.client.connections[k] == c.connections[k]) &&
      (forall i :: 0 <= i < |keys| && ok[i] ==> |b.client.connections[keys[i]].sent| > |c.connections[keys[i]].sent|)
  {
    WritesSpec(c.connections, keys, msg, ok);
    ReportsCount(ok);
    forall k | k in c.connections && k !in keys
      ensures c.connections[k].sent + Repeat(Frame(msg), Delivered(keys, ok, k)) == c.connections[k].sent
    {
      DeliveredUnlisted(keys, ok, k);
    }
    forall i | 0 <= i < |keys| && ok[i]
      ensures Delivered(keys, ok, keys[i]) >= 1
    {
      DeliveredListed(keys, ok, i);
    }
  }

  /* ----- broadcast ----- */

  lemma {:induction false} DeliveredOnce(keys: seq<string>, ok: seq<bool>, i: nat)
    requires |ok| == |keys| && i < |keys|
    requires forall a, b :: 0 <= a < b < |keys| ==> keys[a] != keys[b]
    ensures Delivered(keys, ok, keys[i]) == if ok[i] then 1 else 0
    decreases |keys|
  {
    if i == 0 {
      assert keys[0] !in keys[1..];
      DeliveredUnlisted(keys[1..], ok[1..], keys[0]);
    } else {
      assert keys[1..][i - 1] == keys[i];
      DeliveredOnce(keys[1..], ok[1..], i - 1);
    }
  }

  lemma {:induction false} DistinctCount(s: seq<string>)
    requires forall a, b :: 0 <= a < b < |s| ==> s[a] != s[b]
    ensures |set x | x in s| == |s|
    decreases |s|
  {
    if s != [] {
      DistinctCount(s[1..]);
      assert (set x | x in s) == {s[0]} + (set x | x in s[1..]);
      assert s[0] !in s[1..];
    }
  }

  /** `broadcast` reports one result per entry of the table. */
  lemma BroadcastCount(c: Client, order: seq<string>, msg: Bytes, ok: seq<bool>)
    requires Enumerates(order, c.connections) && |ok| == |order|
    ensures |order| == |c.connections|
    ensures var b := Broadcast(c, order, msg, ok);
      |b.results| == |c.connections| && b.results[Success(())] == multiset(ok)[true]
  {
    ReportsCount(ok);
    DistinctCount(order);
    assert (set x | x in order) == c.connections.Keys;
  }

  /**
   * `broadcast`: every peer in the table gets exactly one frame if its write
   * succeeds and none otherwise, and no entry is added or removed.
   */
  lemma BroadcastFrames(c: Client, order: seq<string>, msg: Bytes, ok: seq<bool>)
    requires Enumerates(order, c.connections) && |ok| == |order|
    ensures var b := Broadcast(c, order, msg, ok);
      b.client.connections.Keys == c.connections.Keys &&
      forall i :: 0 <= i < |order| ==>
        b.client.connections[order[i]] == Connection(c.connections[order[i]].remote,
          c.connections[order[i]].sent + (if ok[i] then Frame(msg) else []))
  {
    var f := Frame(msg);
    WritesSpec(c.connections, order, msg, ok);
    assert Repeat(f, 0) == [] && Repeat(f, 1) == f + [] == f;
    forall i | 0 <= i < |order|
      ensures Repeat(f, Delivered(order, ok, order[i])) == if ok[i] then f else []
    {
      DeliveredOnce(order, ok, i);
    }
    forall k | k in c.connections
      ensures c.connections[k].sent + [] == c.connections[k].sent
    {
    }
  }

  /**
   * When every write succeeds, `broadcast` reports one success per entry of
   * the table and every peer in it gets exactly one more frame.
   */
  lemma BroadcastAllSucceed(c: Client, order: seq<string>, msg: Bytes, ok: seq<bool>)
    requires Enumerates(order, c.connections) && |ok| == |order|
    requires forall i :: 0 <= i < |ok| ==> ok[i]
    ensures var b := Broadcast(c, order, msg, ok);
      b.client.connections.Keys == c.connections.Keys &&
      b.results[Success(())] == |b.results| == |c.connections| &&
      forall k :: k in c.connections ==>
        b.client.connections[k] == Connection(c.connections[k].remote, c.connections[k].sent + Frame(msg))
  {
    BroadcastCount(c, order, msg, ok);
    BroadcastFrames(c, order, msg, ok);
    AllTrueCount(ok);
    forall k | k in c.connections
      ensures Broadcast(c, order, msg, ok).client.connections[k] == Connection(c.connections[k].remote, c.connections[k].sent + Frame(msg))
    {
      var i :| 0 <= i < |order| && order[i] == k;
    }
  }

  lemma {:induction false} AllTrueCount(ok: seq<bool>)
    requires forall i :: 0 <= i < |ok| ==> ok[i]
    ensures multiset(ok)[true] == |ok|
  {
    if ok != [] {
      AllTrueCount(ok[1..]);
      assert ok == [ok[0]] + ok[1..];
    }
  }

  /* ----- The client's test scenarios ----- */

  /** The bytes of `hello`, and of `hello` followed by the delimiter. */
  const HELLO: Bytes := [0x68, 0x65, 0x6C, 0x6C, 0x6F]
  const DELIMITED_HELLO: Bytes := [0x68, 0x65, 0x6C, 0x6C, 0x6F, 0x0A]

  lemma Dialed3(s0: SocketAddr, s1: SocketAddr, s2: SocketAddr)
    ensures Dialed([s0, s1, s2], [true, true, true]) == {Key(s0), Key(s1), Key(s2)}
  {
    var addrs := [s0, s1, s2];
    assert addrs[0] == s0 && addrs[1] == s1 && addrs[2] == s2;
  }

  /** The tests' fixture: a new client that dials three distinct servers, all reachable. */
  function ConnectedToThree(address: SocketAddr, s0: SocketAddr, s1: SocketAddr, s2: SocketAddr): (c: Client)
    requires s0 != s1 && s0 != s2 && s1 != s2
    ensures c.connections.Keys == {Key(s0), Key(s1), Key(s2)}
    ensures Key(s0) != Key(s1) && Key(s0) != Key(s2) && Key(s1) != Key(s2)
    ensures c.connections[Key(s0)] == Connection(s0, [])
    ensures c.connections[Key(s1)] == Connection(s1, [])
    ensures c.connections[Key(s2)] == Connection(s2, [])
  {
    var servers, dialed := [s0, s1, s2], [true, true, true];
    var c := Run(New(address, servers), dialed);
    ConnectKeys(map[], servers, dialed);
    ConnectFresh(map[], servers, dialed, 0);
    ConnectFresh(map[], servers, dialed, 1);
    ConnectFresh(map[], servers, dialed, 2);
    Dialed3(s0, s1, s2);
    KeyDistinct(s0, s1);
    KeyDistinct(s0, s2);
    KeyDistinct(s1, s2);
    assert servers[0] == s0 && servers[1] == s1 && servers[2] == s2;
    c
  }

  /** A peer that has received nothing receives `hello` and the delimiter from one successful write of `hello`. */
  lemma HelloDelivered(s: SocketAddr)
    ensures Deliver(Connection(s, []), HELLO, true) == Connection(s, DELIMITED_HELLO)
  {
    assert [] + DELIMITED_HELLO == DELIMITED_HELLO;
  }

  lemma ReportsOfSuccesses()
    ensures Reports([true, true]) == multiset{Success(()), Success(())}
    ensures Reports([true, true, true]) == multiset{Success(()), Success(()), Success(())}
  {
    assert Reports([true]) == multiset{Success(())};
    assert [true, true][1..] == [true];
    assert [true, true, true][1..] == [true, true];
  }

  /** Writing `hello` to the first server sends it `hello` and the delimiter, and nothing to the others. */
  lemma WritesToAPeer(address: SocketAddr, s0: SocketAddr, s1: SocketAddr, s2: SocketAddr)
    requires s0 != s1 && s0 != s2 && s1 != s2
    ensures var w := WriteTo(ConnectedToThree(address, s0, s1, s2), Key(s0), HELLO, true);
      w.result == Success(()) &&
      w.client.connections[Key(s0)] == Connection(s0, DELIMITED_HELLO) &&
      w.client.connections[Key(s1)] == Connection(s1, []) &&
      w.client.connections[Key(s2)] == Connection(s2, [])
  {
    HelloDelivered(s0);
  }

  /** Broadcasting `hello` sends every server `hello` and the delimiter once, and all three writes succeed. */
  lemma BroadcastsToAllPeers(address: SocketAddr, s0: SocketAddr, s1: SocketAddr, s2: SocketAddr, order: seq<string>)
    requires s0 != s1 && s0 != s2 && s1 != s2
    requires Enumerates(order, ConnectedToThree(address, s0, s1, s2).connections)
    ensures |order| == 3
    ensures Broadcast(ConnectedToThree(address, s0, s1, s2), order, HELLO, [true, true, true]).client.connections.Keys
      == {Key(s0), Key(s1), Key(s2)}
    ensures var b := Broadcast(ConnectedToThree(address, s0, s1, s2), order, HELLO, [true, true, true]);
      b.results == multiset{Success(()), Success(()), Success(())} &&
      b.client.connections[Key(s0)] == Connection(s0, DELIMITED_HELLO) &&
      b.client.connections[Key(s1)] == Connection(s1, DELIMITED_HELLO) &&
      b.client.connections[Key(s2)] == Connection(s2, DELIMITED_HELLO)
  {
    var c := ConnectedToThree(address, s0, s1, s2);
    DistinctCount(order);
    assert (set x | x in order) == c.connections.Keys;
    var ok := [true, true, true];
    BroadcastAllSucceed(c, order, HELLO, ok);
    HelloDelivered(s0);
    HelloDelivered(s1);
    HelloDelivered(s2);
    ReportsOfSuccesses();
  }

  lemma WritesOfTwo(conns: map<string, Connection>, k0: string, k1: string, msg: Bytes)
    requires k0 in conns && k1 in conns
    ensures Writes(conns, [k0, k1], msg, [true, true]) ==
      conns[k0 := Deliver(conns[k0], msg, true)][k1 := Deliver(conns[k0 := Deliver(conns[k0], msg, true)][k1], msg, true)]
  {
    var m1 := conns[k0 := Deliver(conns[k0], msg, true)];
    assert Writes(conns, [k0, k1], msg, [true, true]) == Writes(m1, [k1], msg, [true]);
  }

  /** Writing `hello` to the first two servers sends each of them `hello` and the delimiter, and nothing to the third. */
  lemma WritesToManyPeers(address: SocketAddr, s0: SocketAddr, s1: SocketAddr, s2: SocketAddr)
    requires s0 != s1 && s0 != s2 && s1 != s2
    ensures WriteMany(ConnectedToThree(address, s0, s1, s2), [Key(s0), Key(s1)], HELLO, [true, true]).client.connections.Keys
      == {Key(s0), Key(s1), Key(s2)}
    ensures var b := WriteMany(ConnectedToThree(address, s0, s1, s2), [Key(s0), Key(s1)], HELLO, [true, true]);
      b.results == multiset{Success(()), Success(())} &&
      b.client.connections[Key(s0)] == Connection(s0, DELIMITED_HELLO) &&
      b.client.connections[Key(s1)] == Connection(s1, DELIMITED_HELLO) &&
      b.client.connections[Key(s2)] == Connection(s2, [])
  {
    var c := ConnectedToThree(address, s0, s1, s2);
    var keys, ok := [Key(s0), Key(s1)], [true, true];
    HelloDelivered(s0);
    HelloDelivered(s1);
    WritesOfTwo(c.connections, Key(s0), Key(s1), HELLO);
    ReportsOfSuccesses();
  }
}
