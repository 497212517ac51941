# stors client and response codec in Dafny

This project models two parts of the `stors` key-value node and proves their
properties:

- **The response wire format** (`src/protocol/response.rs`). A `Response`
  carries a `u64` id and one of four outcomes: `OfGet`, `OfSet`, `Error` or
  `Invalid`.
  - Encoding is serde_json's compact output of the derived serializer,
    as UTF-8 bytes. The fields come in declaration order and the `type` tag
    comes first.
  - Decoding is total. Bytes that are not a document of the schema become an
    `Invalid` outcome under the id `Hasher::hash(bytes)`.
  - The model is built in layers:
    - UTF-8 bytes (`Utf8`);
    - decimal numerals (`Decimal`);
    - a JSON value type with serde_json's compact printer (`Json`);
    - a strict RFC 8259 parser (`JsonParser`);
    - the schema mapping and the codec (`ResponseCodec`).
  - The schema follows what serde's derive accepts:
    - unknown and duplicate fields are refused (`deny_unknown_fields`);
    - a struct may also be written as an array of its fields;
    - the `type` tag may sit anywhere in the outcome object;
    - a missing `value` of `OfGet` reads as `None`;
    - the id must be a plain unsigned integer literal below 2^64.

- **The client's connection table** (`src/client.rs`). The table maps the
  text of a socket address (`a.b.c.d:port`) to a connection. A connection is
  represented by the peer it reaches and every byte written to it so far.
  - `Client::new` starts with an empty table.
  - `run` inserts an entry for every address whose dial succeeded.
  - `write_to` writes one frame to one peer, or fails with
    `NoPeerAtAddress(key)`.
  - `write_many` writes to every listed peer and returns one result per key.
  - `broadcast` is `write_many` over a snapshot of all keys.
  - Whether a dial or a write succeeds is decided by the network, so each
    comes in as an input.
  - The program runs the writes concurrently. The model applies them one
    after another. Every write of a call sends the same frame, so the bytes
    each peer ends up with do not depend on the order.
  - Results are a multiset, because the program collects them in completion
    order.

`Framing` connects the two parts:
- a peer reads its byte stream as newline-terminated frames;
- an encoded response never holds a newline byte;
- so every response written with `write_to` or `broadcast` is read back as
  one frame, and that frame decodes to the same response.

The hash function and the library's error text are parameters, `hash` and
`explain`; `explain` sees the input bytes as well as the kind of error.
Every lemma holds for all choices of them.

## Model

| member | source | states |
|---|---|---|
| ResponseProperties.ParseEncode | src/protocol/response.rs:27-40 | Parsing the encoding of any response gives back that response, including strings that need escaping and `value: None` written as `null`. |
| ResponseProperties.DecodeEncode | src/protocol/response.rs:21-40 | `From<Vec<u8>>` applied to the bytes `Into<Vec<u8>>` produces gives back the response, whatever the hash and error text, and its `id()` is the original id. |
| ResponseProperties.SchemaRoundTrip | src/protocol/response.rs:5-19 | The schema reads back the JSON value the derived serializer writes for every response. |
| ResponseProperties.OutcomeRoundTrip | src/protocol/response.rs:12-19 | The internally tagged outcome reads back from its object form, for all four variants. |
| ResponseProperties.IdFromJsonExactly | src/protocol/response.rs:8 | A JSON value is accepted as the `u64` id `n` exactly when it is the shortest decimal numeral of `n`. |
| ResponseProperties.CheckFieldsExactly | src/protocol/response.rs:6 | The unknown-field and duplicate-field check passes exactly when every key is allowed, not seen before, and not repeated. |
| ResponseProperties.ParseText | src/protocol/response.rs:27-40 | The JSON parser reads the encoder's text back as the response's JSON value, even with trailing whitespace after it. |
| ResponseProperties.EncodeHasNoNewline | src/protocol/response.rs:27-31 | The encoding of any response holds no newline byte, so it cannot break a newline-delimited frame. |
| ResponseProperties.DecodeFramed | src/protocol/response.rs:33-40 | The encoding followed by the newline delimiter still decodes to the same response. |
| ResponseProperties.EncodeGetExample | src/protocol/response.rs:61-73 | Response 42 with `OfGet` of `"bar"` encodes to exactly the text the test expects, with the id first and the tag first. |
| ResponseProperties.EncodeSetExample | src/protocol/response.rs:88-98 | Response 42 with `OfSet` of `true` encodes to exactly the text the test expects. |
| ResponseProperties.EncodeErrorExample | src/protocol/response.rs:100-112 | Response 42 with `Error` of `"whoops!"` encodes to exactly the text the test expects. |
| ResponseProperties.DecodeText | src/protocol/response.rs:33-40 | The UTF-8 bytes of any response's text decode to that response. |
| ResponseProperties.DecodeGetExample | src/protocol/response.rs:46-59 | The test's `OfGet` document decodes to response 42 with value `Some("bar")`. |
| ResponseProperties.DecodeSetExample | src/protocol/response.rs:75-86 | The test's `OfSet` document decodes to response 42 with `was_modified` true. |
| ResponseProperties.DecodeNotInvalid | src/protocol/response.rs:33-40 | The fallback only ever produces `Invalid`: a decoded non-`Invalid` response is exactly what the bytes parse to. |
| ResponseProperties.DecodeEmpty | src/protocol/response.rs:33-40 | Empty input is a syntax error and decodes to `Invalid` under the hash of the empty input. |
| ResponseProperties.DecodeNotUtf8 | src/protocol/response.rs:33-40 | Bytes that are not UTF-8 decode to `Invalid` under their own hash. |
| ResponseProperties.ExtraTopLevelField | src/protocol/response.rs:5-10 | A valid response document with one more top-level member decodes to `Invalid` under its hash, not to the response. |
| ResponseProperties.OutcomeExtraField | src/protocol/response.rs:12-19 | An outcome object with a member besides the tag and the variant's field is refused, naming that member. |
| ResponseProperties.ExtraOutcomeField | src/protocol/response.rs:12-19 | A valid response document with an extra member inside the outcome decodes to `Invalid` under its hash. |
| ResponseProperties.TaggedExtra | src/protocol/response.rs:13 | A tag, the variant's field and a third member form an outcome object that is refused as an unknown field. |
| ResponseProperties.FieldsInAnyOrder | src/protocol/response.rs:5-19 | The derived deserializer accepts the members in any order: the outcome before the id, the field before the tag. |
| ResponseProperties.ArrayForm | src/protocol/response.rs:5-19 | The derived deserializer also accepts the sequence form `[id, [tag, field]]`. |
| ResponseProperties.MissingValueIsNone | src/protocol/response.rs:15 | An `OfGet` whose `value` is missing or `null` reads as `None`. |
| ResponseProperties.VariantOfField | src/protocol/response.rs:14-19 | Reading a variant's field value under its own variant name gives back the outcome. |
| ResponseProperties.ResponseFromPair | src/protocol/response.rs:5-10 | An object with exactly the `id` and `outcome` members, in either order, reads as its parts read. |
| JsonRoundTrip.ParseDocumentPrint | src/protocol/response.rs:29-35 | The JSON parser reads the compact text of any well-formed value back as that value, with any whitespace after it. |
| JsonRoundTrip.PrintNoControl | src/protocol/response.rs:29 | The compact text of a well-formed value holds no raw control character, because string contents are escaped. |
| Utf8.DecodeEncode | src/protocol/response.rs:29-35 | Decoding the UTF-8 encoding of any string gives the string back. |
| Utf8.EncodeDecode | src/protocol/response.rs:35 | Bytes that decode as UTF-8 are exactly the encoding of what they decode to. |
| Utf8.NewlineByteIffNewlineChar | src/protocol/response.rs:29 | The encoding of a string holds the newline byte exactly when the string holds a newline character. |
| Decimal.ShowValue | src/protocol/response.rs:8 | Reading a canonical numeral and writing the number again gives back the same numeral. |
| Decimal.ValueShow | src/protocol/response.rs:8 | Reading the decimal form of a number gives back the number. |
| SocketAddrs.KeyInjective | src/client.rs:43 | Two addresses with the same `to_string()` text are the same address, so the table holds one entry per address. |
| Clients.New | src/client.rs:21-28 | A new client stores the address and the server list it was given and has no connections. |
| ClientProperties.RunConnects | src/client.rs:30-47 | `run` keeps the old keys and adds exactly the key of each address whose dial succeeded. Each such key maps to a fresh connection to that address, and other entries are unchanged. |
| ClientProperties.ConnectKeys | src/client.rs:41-45 | The insert loop's key set is the old keys plus the keys of the dialed addresses. |
| ClientProperties.ConnectFresh | src/client.rs:41-45 | After the insert loop, every dialed address's key holds a fresh connection to that address. |
| ClientProperties.ConnectKeeps | src/client.rs:41-45 | The insert loop leaves alone every entry whose key was not dialed. |
| ClientProperties.RunFromNew | src/client.rs:172-189 | A new client that dials all of its distinct servers successfully holds one connection per server. |
| ClientProperties.WriteToFrames | src/client.rs:49-62 | For an unknown key, `write_to` returns `NoPeerAtAddress` with that key and changes nothing. Otherwise it succeeds exactly when the write does, appends one frame to that peer only on success, and changes no key. |
| ClientProperties.WritesSpec | src/client.rs:64-80 | After the writes of `write_many`, each peer's bytes are its old bytes plus one frame per successful write addressed to it, and the key set is unchanged. |
| ClientProperties.ReportsCount | src/client.rs:70-79 | There is one result per write: as many successes as writes that went through and as many transport failures as writes that did not. |
| ClientProperties.WriteManyFrames | src/client.rs:64-80 | `write_many` returns one result per requested key, and only listed peers receive anything. Each listed peer whose write succeeds gains bytes, and no entry is added or removed. |
| ClientProperties.DeliveredOnce | src/client.rs:82-89 | In a list of distinct keys, each key receives exactly one frame if its write succeeds and none otherwise. |
| ClientProperties.BroadcastCount | src/client.rs:82-89 | `broadcast` returns one result per table entry, with one success per write that went through. |
| ClientProperties.BroadcastFrames | src/client.rs:82-89 | `broadcast` appends exactly one frame to every peer whose write succeeds, nothing to the others, and keeps the key set. |
| ClientProperties.BroadcastAllSucceed | src/client.rs:82-89 | When every write succeeds, `broadcast` reports one success per entry and every peer gains exactly one frame. |
| ClientProperties.DistinctCount | src/client.rs:83-87 | A snapshot listing each key once has as many elements as the table has keys. |
| ClientProperties.ConnectedToThree | src/client.rs:118-157 | A new client that dials three distinct test servers, all reachable, holds exactly their three keys, each with a connection that has carried nothing. |
| ClientProperties.WritesToAPeer | src/client.rs:191-212 | Writing `hello` to the first server succeeds and sends it `hello\n`. The other two servers receive nothing. |
| ClientProperties.BroadcastsToAllPeers | src/client.rs:214-248 | Broadcasting `hello` yields three successes and sends `hello\n` exactly once to each of the three servers. |
| ClientProperties.WritesToManyPeers | src/client.rs:250-283 | Writing `hello` to the first two servers yields two successes and sends each of them `hello\n`. The third server receives nothing. |
| Framing.NextFrame | src/client.rs:141-145 | The frame read off a stream is its shortest prefix ending in a newline, with no newline before the end; there is none exactly when no newline has arrived. |
| Framing.NextFrameOf | src/client.rs:207-211 | A written frame whose message holds no newline is read back whole, whatever follows it on the stream. |
| Framing.FramesOfRepeat | src/client.rs:70-79 | `n` successful writes of the same newline-free message are read as `n` copies of its frame. |
| Framing.ResponsesReadBack | src/protocol/response.rs:27-40 | An encoded response written `n` times is read as `n` frames, each decoding to that response. |
| Framing.WriteToDeliversResponse | src/client.rs:54-62 | An encoded response sent with `write_to` over an unused connection reaches the peer as one frame that decodes to the response. |
| Framing.BroadcastDeliversResponse | src/client.rs:82-89 | An encoded response broadcast over unused connections, with every write succeeding, reaches every peer as one frame that decodes to the response. |

## Left out

- TCP socket creation, `connect` and tokio task spawning are I/O and the runtime. Dial outcomes and write outcomes are inputs.
- `DashMap`, `Arc<Mutex<..>>` locking and the `buffer_unordered` scheduling exist for concurrency. The model is sequential and returns results as a multiset.
- A `JoinError` from a spawned task, and the `?` on `try_join_all` in `run` that aborts the whole call, are runtime failures and are not modelled.
- `src/tcp/connection.rs` is not part of this model. A connection's write is taken to append the message and a newline to the peer's bytes. A failed write is taken to append nothing; the model has no partial writes.
- `Framing.NextFrame`: a peer reads each frame *with* its newline, as `src/client.rs:211` expects.
- `Hasher::hash` is not part of this model. It is the parameter `hash`.
- The text of serde_json's error messages is library-defined. It is the parameter `explain`, applied to the input bytes and a structured `DecodeError`, so a message may depend on where in the input reading stopped. The model does not compute that position itself.
- `State` and the client's `state` field are an opaque lifecycle marker.
- Only IPv4 addresses are modelled, which is what `TcpSocket::new_v4` dials.
- `write_many` with an empty key list hands `buffer_unordered` a limit of zero. The model returns an empty result there; the futures library's behaviour for that limit is not modelled.
- `write_many` unwraps the table lookup and panics on an unknown key. The model makes every key being present a precondition.
- The table's iteration order, which `broadcast` takes its snapshot in, is not observable. It is an input listing every key once (`Clients.Enumerates`).
- serde_json's recursion limit of 128 nesting levels is not modelled. The parser accepts documents of any depth.
- Non-integer and negative numbers are parsed as JSON lexemes but are always refused as an id, just as for a `u64`. Their numeric value is never computed.
