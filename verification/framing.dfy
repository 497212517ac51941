/**
 * Newline framing on a peer's byte stream. A connection's write puts a
 * message and the newline delimiter on the wire, and the reading side hands
 * back each message with its delimiter (the client's tests expect `hello\n`
 * after writing `hello`). This module states that reading, and shows that
 * encoded responses survive it: no encoding holds a newline, so each frame
 * is read back whole and decodes to the response written.
 */
module Framing {
  import opened Wrappers
  import opened Utf8
  import opened Clients
  import opened ClientProperties
  import ResponseCodec
  import ResponseProperties

  /** The bytes up to and including the first newline, and what follows; `None` when no newline has arrived. */
  function NextFrame(bs: Bytes): (r: Option<(Bytes, Bytes)>)
    ensures r.None? <==> NEWLINE !in bs
    ensures r.Some? ==>
      var (f, rest) := r.value;
      f + rest == bs && f != [] && f[|f| - 1] == NEWLINE && NEWLINE !in f[..|f| - 1]
    decreases |bs|
  {
    if bs == [] then None
    else if bs[0] == NEWLINE then Some(([bs[0]], bs[1..]))
    else
      match NextFrame(bs[1..])
      case None => None
      case Some((f, rest)) =>
        assert ([bs[0]] + f)[..|f|] == [bs[0]] + f[..|f| - 1];
        Some(([bs[0]] + f, rest))
  }

  /** Every complete frame of a stream, in order; an unterminated tail is left unread. */
  function Frames(bs: Bytes): seq<Bytes>
    decreases |bs|
  {
    match NextFrame(bs)
    case None => []
    case Some((f, rest)) => [f] + Frames(rest)
  }

  /** A frame whose message holds no newline is read back whole, whatever follows it. */
  lemma {:induction false} NextFrameOf(msg: Bytes, rest: Bytes)
    requires NEWLINE !in msg
    ensures NextFrame(Frame(msg) + rest) == Some((Frame(msg), rest))
    decreases |msg|
  {
    var bs := Frame(msg) + rest;
    if msg == [] {
      assert bs == [NEWLINE] + rest;
    } else {
      var bs' := Frame(msg[1..]) + rest;
      assert Frame(msg) == [msg[0]] + Frame(msg[1..]);
      assert bs == [msg[0]] + bs' && bs[1..] == bs';
      NextFrameOf(msg[1..], rest);
    }
  }

  /** `n` writes of the same newline-free message are read back as `n` copies of its frame. */
  lemma {:induction false} FramesOfRepeat(msg: Bytes, n: nat)
    requires NEWLINE !in msg
    ensures Frames(Repeat(Frame(msg), n)) == seq(n, _ => Frame(msg))
  {
    var f := Frame(msg);
    if n == 0 {
      assert NextFrame(Repeat(f, 0)) == None;
    } else {
      var rest := Repeat(f, n - 1);
      assert Repeat(f, n) == f + rest;
      NextFrameOf(msg, rest);
      assert Frames(f + rest) == [f] + Frames(rest);
      FramesOfRepeat(msg, n - 1);
      assert seq(n, _ => f) == [f] + seq(n - 1, _ => f);
    }
  }

  /**
   * A response written to a peer over a fresh connection, `n` times, is read
   * there as `n` frames, each of which decodes to that response.
   */
  lemma ResponsesReadBack(r: ResponseCodec.Response, n: nat,
                          hash: Bytes -> ResponseCodec.U64, explain: (Bytes, ResponseCodec.DecodeError) -> string)
    ensures var frames := Frames(Repeat(Frame(ResponseCodec.Encode(r)), n));
      |frames| == n &&
      forall i :: 0 <= i < n ==> ResponseCodec.Decode(frames[i], hash, explain) == r
  {
    ResponseProperties.EncodeHasNoNewline(r);
    FramesOfRepeat(ResponseCodec.Encode(r), n);
    ResponseProperties.DecodeFramed(r, hash, explain);
  }

  /**
   * Sending an encoded response with `write_to` over a connection that has
   * carried nothing yet lets the peer read exactly one frame, and that frame
   * decodes to the response.
   */
  lemma WriteToDeliversResponse(c: Client, key: string, r: ResponseCodec.Response,
                                hash: Bytes -> ResponseCodec.U64, explain: (Bytes, ResponseCodec.DecodeError) -> string)
    requires key in c.connections && c.connections[key].sent == []
    ensures var sent := WriteTo(c, key, ResponseCodec.Encode(r), true).client.connections[key].sent;
      |Frames(sent)| == 1 && ResponseCodec.Decode(Frames(sent)[0], hash, explain) == r
  {
    WriteToFrames(c, key, ResponseCodec.Encode(r), true);
    ResponsesReadBack(r, 1, hash, explain);
    var f := Frame(ResponseCodec.Encode(r));
    assert Repeat(f, 1) == f + [] == [] + f;
  }

  /**
   * Broadcasting an encoded response over connections that have carried
   * nothing yet, with every write going through, lets each peer in the table
   * read exactly one frame, which decodes to the response.
   */
  lemma BroadcastDeliversResponse(c: Client, order: seq<string>, r: ResponseCodec.Response, ok: seq<bool>,
                                  hash: Bytes -> ResponseCodec.U64, explain: (Bytes, ResponseCodec.DecodeError) -> string)
    requires Enumerates(order, c.connections) && |ok| == |order|
    requires forall i :: 0 <= i < |ok| ==> ok[i]
    requires forall k :: k in c.connections ==> c.connections[k].sent == []
    ensures Broadcast(c, order, ResponseCodec.Encode(r), ok).client.connections.Keys == c.connections.Keys
    ensures forall k :: k in c.connections ==>
      var sent := Broadcast(c, order, ResponseCodec.Encode(r), ok).client.connections[k].sent;
      |Frames(sent)| == 1 && ResponseCodec.Decode(Frames(sent)[0], hash, explain) == r
  {
    var f := Frame(ResponseCodec.Encode(r));
    BroadcastAllSucceed(c, order, ResponseCodec.Encode(r), ok);
    ResponsesReadBack(r, 1, hash, explain);
    assert Repeat(f, 1) == f + [] == [] + f;
  }
}
