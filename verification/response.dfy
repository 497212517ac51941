/**
 * The reply a server sends to the client: `Response { id, outcome }` and
 * its wire codec.
 *
 * Encoding is serde_json's compact output of the derived `Serialize`
 * (fields in declaration order, the `type` tag of the internally tagged
 * `Outcome` first), turned into UTF-8 bytes. Decoding is total: bytes that
 * are not a document of the schema become an `Invalid` outcome whose id is
 * the hash of the bytes. The hash and the text of the library's error
 * message are not part of this model and come in as parameters; the text
 * is given the input as well as the kind of error, since the library's
 * message names the line and column where reading stopped.
 *
 * The schema side follows what serde's derive accepts: a struct may also be
 * written as an array of its fields in order, unknown and duplicate fields
 * are refused, the tag may sit anywhere among the outcome's fields (or come
 * first in an array), and the optional `value` of `OfGet` may be `null` or
 * missing.
 */
module ResponseCodec {
  import opened Wrappers
  import opened Decimal
  import opened Json
  import opened JsonParser
  import Utf8

  /** Rust's `u64`. */
  const U64_LIMIT: nat := 0x1_0000_0000_0000_0000
  type U64 = x: nat | x < U64_LIMIT

  datatype Outcome =
    | OfGet(value: Option<string>)
    | OfSet(wasModified: bool)
    | Error(msg: string)
    | Invalid(msg: string)

  datatype Response = Response(id: U64, outcome: Outcome) {
    /** `Response::id`: the id the response answers to. */
    function Id(): U64 {
      id
    }
  }

  /* ----- Encoding ----- */

  function OutcomeToJson(o: Outcome): Json {
    match o
    case OfGet(v) =>
      Obj([Member("type", Str("OfGet")), Member("value", if v.Some? then Str(v.value) else Null)])
    case OfSet(b) =>
      Obj([Member("type", Str("OfSet")), Member("was_modified", Bool(b))])
    case Error(m) =>
      Obj([Member("type", Str("Error")), Member("msg", Str(m))])
    case Invalid(m) =>
      Obj([Member("type", Str("Invalid")), Member("msg", Str(m))])
  }

  /** The JSON value serde's derived `Serialize` produces for a response. */
  function ToJson(r: Response): Json {
    Obj([Member("id", Num(Show(r.id))), Member("outcome", OutcomeToJson(r.outcome))])
  }

  /** The compact JSON text of a response. */
  function Text(r: Response): string {
    Print(ToJson(r))
  }

  /** `Into<Vec<u8>> for Response`: the UTF-8 bytes of the compact JSON text. */
  function Encode(r: Response): Utf8.Bytes {
    Utf8.Encode(Text(r))
  }

  /* ----- The schema ----- */

  datatype SchemaError =
    | UnknownField(name: string)
    | DuplicateField(name: string)
    | MissingField(name: string)
    | UnknownVariant(name: string)
    | InvalidType
    | InvalidLength(length: nat)
    | OutOfRange

  /** How many members of an object carry the key `k`. */
  function CountKey(ms: seq<Member>, k: string): nat {
    if ms == [] then 0 else (if ms[0].key == k then 1 else 0) + CountKey(ms[1..], k)
  }

  /** The value of the first member with key `k`. */
  function Lookup(ms: seq<Member>, k: string): Option<Json> {
    if ms == [] then None else if ms[0].key == k then Some(ms[0].value) else Lookup(ms[1..], k)
  }

  /** The members whose key is not `k`, in order. */
  function Without(ms: seq<Member>, k: string): seq<Member> {
    if ms == [] then [] else (if ms[0].key == k then [] else [ms[0]]) + Without(ms[1..], k)
  }

  /**
   * serde's `deny_unknown_fields` check and its duplicate-field check, in
   * the order the members come; `seen` holds the keys already met.
   */
  function CheckFields(ms: seq<Member>, allowed: set<string>, seen: set<string>): Result<(), SchemaError> {
    if ms == [] then Success(())
    else if ms[0].key !in allowed then Failure(UnknownField(ms[0].key))
    else if ms[0].key in seen then Failure(DuplicateField(ms[0].key))
    else CheckFields(ms[1..], allowed, seen + {ms[0].key})
  }

  /** A `u64` field: a plain unsigned integer literal below 2^64. */
  function IdFromJson(j: Json): Result<U64, SchemaError> {
    if j.Num? && IsCanonical(j.lexeme) then
      var n := Value(j.lexeme);
      if n < U64_LIMIT then Success(n) else Failure(OutOfRange)
    else Failure(InvalidType)
  }

  function StringFromJson(j: Json): Result<string, SchemaError> {
    if j.Str? then Success(j.s) else Failure(InvalidType)
  }

  function BoolFromJson(j: Json): Result<bool, SchemaError> {
    if j.Bool? then Success(j.b) else Failure(InvalidType)
  }

  /** An `Option<String>`: `null` is `None`. */
  function OptionFromJson(j: Json): Result<Option<string>, SchemaError> {
    if j.Null? then Success(None)
    else if j.Str? then Success(Some(j.s))
    else Failure(InvalidType)
  }

  predicate IsVariant(name: string) {
    name == "OfGet" || name == "OfSet" || name == "Error" || name == "Invalid"
  }

  /** The one field each variant carries. */
  function FieldOf(name: string): string {
    if name == "OfGet" then "value" else if name == "OfSet" then "was_modified" else "msg"
  }

  /** A variant's content from its field's value; `None` when the field is absent. */
  function VariantOf(name: string, field: Option<Json>): Result<Outcome, SchemaError>
    requires IsVariant(name)
  {
    if name == "OfGet" then
      if field.None? then Success(OfGet(None))
      else
        var v :- OptionFromJson(field.value);
        Success(OfGet(v))
    else if field.None? then Failure(MissingField(FieldOf(name)))
    else if name == "OfSet" then
      var b :- BoolFromJson(field.value);
      Success(OfSet(b))
    else
      var m :- StringFromJson(field.value);
      Success(if name == "Error" then Error(m) else Invalid(m))
  }

  /**
   * The internally tagged `Outcome`: as an object, exactly one `type` member
   * naming the variant and otherwise only the variant's field; as an array,
   * the tag and then exactly the variant's field.
   */
  function OutcomeFromJson(j: Json): Result<Outcome, SchemaError> {
    match j
    case Obj(ms) =>
      (match Lookup(ms, "type")
       case None => Failure(MissingField("type"))
       case Some(tag) =>
         if CountKey(ms, "type") > 1 then Failure(DuplicateField("type"))
         else if !tag.Str? then Failure(InvalidType)
         else if !IsVariant(tag.s) then Failure(UnknownVariant(tag.s))
         else
           var rest := Without(ms, "type");
           var _ :- CheckFields(rest, {FieldOf(tag.s)}, {});
           VariantOf(tag.s, Lookup(rest, FieldOf(tag.s))))
    case Arr(items) =>
      if items == [] then Failure(MissingField("type"))
      else if !items[0].Str? then Failure(InvalidType)
      else if !IsVariant(items[0].s) then Failure(UnknownVariant(items[0].s))
      else if |items| != 2 then Failure(InvalidLength(|items| - 1))
      else VariantOf(items[0].s, Some(items[1]))
    case _ => Failure(InvalidType)
  }

  /** The `Response` struct, as an object with exactly `id` and `outcome` or as a two-element array. */
  function ResponseFromJson(j: Json): Result<Response, SchemaError> {
    match j
    case Obj(ms) =>
      var _ :- CheckFields(ms, {"id", "outcome"}, {});
      if Lookup(ms, "id").None? then Failure(MissingField("id"))
      else if Lookup(ms, "outcome").None? then Failure(MissingField("outcome"))
      else
        var id :- IdFromJson(Lookup(ms, "id").value);
        var o :- OutcomeFromJson(Lookup(ms, "outcome").value);
        Success(Response(id, o))
    case Arr(items) =>
      if |items| != 2 then Failure(InvalidLength(|items|))
      else
        var id :- IdFromJson(items[0]);
        var o :- OutcomeFromJson(items[1]);
        Success(Response(id, o))
    case _ => Failure(InvalidType)
  }

  /* ----- Decoding ----- */

  datatype DecodeError =
    | NotUtf8
    | Syntax(syntax: ParseError)
    | Schema(schema: SchemaError)

  /** `serde_json::from_slice::<Response>`. */
  function Parse(bs: Utf8.Bytes): Result<Response, DecodeError> {
    match Utf8.Decode(bs)
    case None => Failure(NotUtf8)
    case Some(text) =>
      match ParseDocument(text)
      case Failure(e) => Failure(Syntax(e))
      case Success(j) =>
        match ResponseFromJson(j)
        case Failure(e) => Failure(Schema(e))
        case Success(r) => Success(r)
  }

  /**
   * `From<Vec<u8>> for Response`: the parsed response, or else an `Invalid`
   * outcome carrying the error's text under the id `hash(bs)`.
   */
  function Decode(bs: Utf8.Bytes, hash: Utf8.Bytes -> U64, explain: (Utf8.Bytes, DecodeError) -> string): Response {
    match Parse(bs)
    case Success(r) => r
    case Failure(e) => Response(hash(bs), Invalid(explain(bs, e)))
  }
}
