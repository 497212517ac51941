/**
 * What the response codec promises: every response survives the trip
 * through bytes, with or without the frame delimiter after it; the bytes
 * never hold the delimiter; the test vectors come out byte for byte; the
 * schema is strict about unknown fields; and every other input falls back
 * to an `Invalid` outcome under the hash of the bytes.
 */
module ResponseProperties {
  import opened Wrappers
  import opened Decimal
  import opened Json
  import opened JsonParser
  import opened JsonSteps
  import opened JsonRoundTrip
  import opened ResponseCodec
  import Utf8

  /* ----- Ids ----- */

  lemma {:induction false} DigitRunAll(s: string, i: nat)
    requires AllDigits(s) && i <= |s|
    ensures DigitRun(s, i) == |s|
    decreases |s| - i
  {
    if i < |s| {
      DigitRunAll(s, i + 1);
    }
  }

  /** A canonical decimal numeral is a JSON number lexeme. */
  lemma CanonicalIsNumber(s: string)
    requires IsCanonical(s)
    ensures IsNumberLexeme(s)
  {
    if s[0] != '0' {
      DigitRunAll(s, 0);
    }
    assert IntEnd(s) == Some(|s|);
  }

  /** The `u64` field accepts exactly the canonical numeral of each id. */
  lemma IdFromJsonExactly(j: Json, n: U64)
    ensures IdFromJson(j) == Success(n) <==> j == Num(Show(n))
  {
    if j == Num(Show(n)) {
      ValueShow(n);
    }
    if IdFromJson(j) == Success(n) {
      ShowValue(j.lexeme);
    }
  }

  /* ----- The schema ----- */

  /** The field check passes exactly when every key is allowed, unseen and not repeated. */
  lemma {:induction false} CheckFieldsExactly(ms: seq<Member>, allowed: set<string>, seen: set<string>)
    ensures CheckFields(ms, allowed, seen).Success? <==>
      (forall i :: 0 <= i < |ms| ==> ms[i].key in allowed && ms[i].key !in seen) &&
      (forall i, j :: 0 <= i < j < |ms| ==> ms[i].key != ms[j].key)
  {
    if ms != [] {
      CheckFieldsExactly(ms[1..], allowed, seen + {ms[0].key});
      assert forall i :: 1 <= i < |ms| ==> ms[i] == ms[1..][i - 1];
    }
  }

  /** How the key helpers step over the head of a member list. */
  lemma KeysCons(m: Member, ms: seq<Member>, k: string)
    ensures CountKey([m] + ms, k) == (if m.key == k then 1 else 0) + CountKey(ms, k)
    ensures Lookup([m] + ms, k) == if m.key == k then Some(m.value) else Lookup(ms, k)
    ensures Without([m] + ms, k) == (if m.key == k then [] else [m]) + Without(ms, k)
  {
    assert ([m] + ms)[1..] == ms;
  }

  /** How the field check steps over the head of a member list. */
  lemma CheckCons(m: Member, ms: seq<Member>, allowed: set<string>, seen: set<string>)
    ensures CheckFields([m] + ms, allowed, seen) ==
      if m.key !in allowed then Failure(UnknownField(m.key))
      else if m.key in seen then Failure(DuplicateField(m.key))
      else CheckFields(ms, allowed, seen + {m.key})
  {
    assert ([m] + ms)[1..] == ms;
  }

  /** How the outcome reads an object whose one `type` member names a variant. */
  lemma OutcomeObject(ms: seq<Member>, name: string)
    requires Lookup(ms, "type") == Some(Str(name)) && CountKey(ms, "type") == 1 && IsVariant(name)
    ensures var check := CheckFields(Without(ms, "type"), {FieldOf(name)}, {});
      OutcomeFromJson(Obj(ms)) ==
        if check.Failure? then Failure(check.error) else VariantOf(name, Lookup(Without(ms, "type"), FieldOf(name)))
  {
  }

  /** The variant name the tag carries. */
  function VariantName(o: Outcome): (name: string)
    ensures IsVariant(name)
  {
    match o
    case OfGet(_) => "OfGet"
    case OfSet(_) => "OfSet"
    case Error(_) => "Error"
    case Invalid(_) => "Invalid"
  }

  /** The value the variant's one field holds. */
  function FieldValue(o: Outcome): Json {
    match o
    case OfGet(v) => if v.Some? then Str(v.value) else Null
    case OfSet(b) => Bool(b)
    case Error(m) => Str(m)
    case Invalid(m) => Str(m)
  }

  lemma OutcomeToJsonShape(o: Outcome)
    ensures OutcomeToJson(o) == Obj([Member("type", Str(VariantName(o))), Member(FieldOf(VariantName(o)), FieldValue(o))])
  {
  }

  lemma VariantOfField(o: Outcome)
    ensures VariantOf(VariantName(o), Some(FieldValue(o))) == Success(o)
  {
  }

  /** Every outcome is read back from the object the encoder writes. */
  lemma OutcomeRoundTrip(o: Outcome)
    ensures OutcomeFromJson(OutcomeToJson(o)) == Success(o)
  {
    OutcomeToJsonShape(o);
    VariantOfField(o);
    var name := VariantName(o);
    var tag, field := Member("type", Str(name)), Member(FieldOf(name), FieldValue(o));
    assert [tag, field] == [tag] + ([field] + []);
    KeysCons(tag, [field], "type");
    KeysCons(field, [], "type");
    CheckCons(field, [], {FieldOf(name)}, {});
    KeysCons(field, [], FieldOf(name));
    var ms := [tag, field];
    assert Lookup(ms, "type") == Some(Str(name));
    assert CountKey(ms, "type") == 1;
    assert Without(ms, "type") == [field];
    assert CheckFields([field], {FieldOf(name)}, {}) == Success(());
    assert Lookup([field], FieldOf(name)) == Some(FieldValue(o));
  }

  /** The top-level object with its two members in either order reads as its parts do. */
  lemma ResponseFromPair(idj: Json, oj: Json, id: U64)
    requires IdFromJson(idj) == Success(id)
    ensures var o := OutcomeFromJson(oj);
      var r := if o.Success? then Success(Response(id, o.value)) else Failure(o.error);
      ResponseFromJson(Obj([Member("id", idj), Member("outcome", oj)])) == r &&
      ResponseFromJson(Obj([Member("outcome", oj), Member("id", idj)])) == r
  {
    var a, b := Member("id", idj), Member("outcome", oj);
    var allowed := {"id", "outcome"};
    assert [a, b] == [a] + ([b] + []);
    KeysCons(a, [b], "id");
    CheckCons(a, [b], allowed, {});
    KeysCons(b, [], "id");
    CheckCons(b, [], allowed, {"id"});
    KeysCons(a, [b], "outcome");
    KeysCons(b, [], "outcome");
    assert [b, a] == [b] + ([a] + []);
    KeysCons(b, [a], "id");
    CheckCons(b, [a], allowed, {});
    KeysCons(a, [], "id");
    CheckCons(a, [], allowed, {"outcome"});
    KeysCons(b, [a], "outcome");
    KeysCons(a, [], "outcome");
  }

  /** Every response is read back from the JSON value the encoder writes. */
  lemma SchemaRoundTrip(r: Response)
    ensures ResponseFromJson(ToJson(r)) == Success(r)
  {
    IdFromJsonExactly(Num(Show(r.id)), r.id);
    OutcomeRoundTrip(r.outcome);
    ResponseFromPair(Num(Show(r.id)), OutcomeToJson(r.outcome), r.id);
  }

  /* ----- Bytes ----- */

  lemma ToJsonWellFormed(r: Response)
    ensures WellFormed(ToJson(r))
  {
    CanonicalIsNumber(Show(r.id));
    var j := ToJson(r);
    assert WellFormed(j.members[0].value);
    assert WellFormed(j.members[1].value);
  }

  /** The JSON layer reads back the text the encoder writes, followed by any whitespace. */
  lemma ParseText(r: Response, trailing: string)
    requires AllWhitespace(trailing)
    ensures ParseDocument(Text(r) + trailing) == Success(ToJson(r))
  {
    ToJsonWellFormed(r);
    ParseDocumentPrint(ToJson(r), trailing);
  }

  /** Round trip: decoding the encoding of any response gives the response back. */
  lemma ParseEncode(r: Response)
    ensures Parse(Encode(r)) == Success(r)
  {
    Utf8.DecodeEncode(Text(r));
    ParseText(r, []);
    assert Text(r) + [] == Text(r);
    SchemaRoundTrip(r);
  }

  lemma DecodeEncode(r: Response, hash: Utf8.Bytes -> U64, explain: (Utf8.Bytes, DecodeError) -> string)
    ensures Decode(Encode(r), hash, explain) == r
    ensures Decode(Encode(r), hash, explain).Id() == r.id
  {
    ParseEncode(r);
  }

  /** The encoding followed by the frame delimiter, as a peer reads it off the wire, decodes to the same response. */
  lemma DecodeFramed(r: Response, hash: Utf8.Bytes -> U64, explain: (Utf8.Bytes, DecodeError) -> string)
    ensures Decode(Encode(r) + [Utf8.NEWLINE], hash, explain) == r
  {
    var text := Text(r) + "\n";
    Utf8.EncodeAppend(Text(r), "\n");
    assert Utf8.Encode("\n") == [Utf8.NEWLINE];
    Utf8.DecodeEncode(text);
    ParseText(r, "\n");
    SchemaRoundTrip(r);
  }

  /** The encoding never holds the frame delimiter byte. */
  lemma EncodeHasNoNewline(r: Response)
    ensures Utf8.NEWLINE !in Encode(r)
  {
    ToJsonWellFormed(r);
    PrintNoControl(ToJson(r));
    Utf8.NewlineByteIffNewlineChar(Text(r));
    assert '\n' !in Text(r);
  }

  /* ----- The test vectors ----- */

  /** Text that a string literal holds as it is. */
  predicate Plain(s: string) {
    forall i :: 0 <= i < |s| ==> s[i] != '"' && s[i] != '\\' && !IsControl(s[i])
  }

  lemma {:induction false} EscapePlain(s: string)
    requires Plain(s)
    ensures Escape(s) == s
  {
    if s != [] {
      EscapePlain(s[1..]);
      assert s == [s[0]] + s[1..];
    }
  }

  lemma PlainMember(k: string, v: Json)
    requires Plain(k)
    ensures PrintMember(Member(k, v)) == "\"" + k + "\":" + Print(v)
  {
    EscapePlain(k);
  }

  /*
   * String algebra for the test vectors. Each lemma below re-brackets a
   * concatenation or fixes one literal spelling. They take plain string
   * parameters so that the solver meets only concatenations here and never
   * unfolds the printer on literal arguments; the text lemmas that follow
   * chain them together.
   */

  lemma JoinPair(t: string, ma: string, mb: string, k1: string, p1: string, k2: string, p2: string)
    requires t == "{" + ma + "," + mb + "}"
    requires ma == "\"" + k1 + "\":" + p1 && mb == "\"" + k2 + "\":" + p2
    ensures t == "{\"" + k1 + "\":" + p1 + ",\"" + k2 + "\":" + p2 + "}"
  {
  }

  lemma JoinResponse(t: string, n: string, x: string, p: string)
    requires t == "{\"" + "id" + "\":" + n + ",\"" + "outcome" + "\":" + p + "}"
    requires n == x
    ensures t == "{\"id\":" + x + ",\"outcome\":" + p + "}"
  {
  }

  lemma JoinTagged(t: string, q: string, tag: string, field: string, p: string)
    requires t == "{\"" + "type" + "\":" + q + ",\"" + field + "\":" + p + "}"
    requires q == "\"" + tag + "\""
    ensures t == "{\"type\":\"" + tag + "\",\"" + field + "\":" + p + "}"
  {
  }

  lemma JoinText(text: string, inner: string, tag: string, field: string, fv: string)
    requires text == "{\"id\":42,\"outcome\":" + inner + "}"
    requires inner == "{\"type\":\"" + tag + "\",\"" + field + "\":" + fv + "}"
    ensures text == "{\"id\":42,\"outcome\":{\"type\":\"" + tag + "\",\"" + field + "\":" + fv + "}}"
  {
  }

  lemma ShowFortyTwo()
    ensures Show(42) == "42"
  {
    assert Show(4) == [DigitChar(4)];
  }

  lemma GetSpelling(fv: string)
    requires fv == "\"bar\""
    ensures "{\"id\":42,\"outcome\":{\"type\":\"" + "OfGet" + "\",\"" + "value" + "\":" + fv + "}}"
      == "{\"id\":42,\"outcome\":{\"type\":\"OfGet\",\"value\":\"bar\"}}"
  {
  }

  lemma SetSpelling(fv: string)
    requires fv == "true"
    ensures "{\"id\":42,\"outcome\":{\"type\":\"" + "OfSet" + "\",\"" + "was_modified" + "\":" + fv + "}}"
      == "{\"id\":42,\"outcome\":{\"type\":\"OfSet\",\"was_modified\":true}}"
  {
  }

  lemma ErrorSpelling(fv: string)
    requires fv == "\"whoops!\""
    ensures "{\"id\":42,\"outcome\":{\"type\":\"" + "Error" + "\",\"" + "msg" + "\":" + fv + "}}"
      == "{\"id\":42,\"outcome\":{\"type\":\"Error\",\"msg\":\"whoops!\"}}"
  {
  }

  /* The printed text of the test vectors. */

  lemma PrintPair(a: Member, b: Member)
    ensures Print(Obj([a, b])) == "{" + PrintMember(a) + "," + PrintMember(b) + "}"
  {
    PrintMembersUnfold([a, b]);
    assert [a, b][1..] == [b];
    assert PrintMembers([b]) == PrintMember(b);
  }

  /** The text of a two-member object with plain keys. */
  lemma PairText(k1: string, v1: Json, k2: string, v2: Json)
    requires Plain(k1) && Plain(k2)
    ensures Print(Obj([Member(k1, v1), Member(k2, v2)])) ==
      "{\"" + k1 + "\":" + Print(v1) + ",\"" + k2 + "\":" + Print(v2) + "}"
  {
    PrintPair(Member(k1, v1), Member(k2, v2));
    PlainMember(k1, v1);
    PlainMember(k2, v2);
    JoinPair(Print(Obj([Member(k1, v1), Member(k2, v2)])), PrintMember(Member(k1, v1)), PrintMember(Member(k2, v2)),
      k1, Print(v1), k2, Print(v2));
  }

  lemma QuotePlain(s: string)
    requires Plain(s)
    ensures Print(Str(s)) == "\"" + s + "\""
  {
    EscapePlain(s);
  }

  lemma PlainKeys()
    ensures Plain("id") && Plain("outcome") && Plain("type")
  {
  }

  /** The text of a response, given the text of its outcome. */
  lemma ResponseText(r: Response)
    ensures Text(r) == "{\"id\":" + Show(r.id) + ",\"outcome\":" + Print(OutcomeToJson(r.outcome)) + "}"
  {
    PlainKeys();
    PairText("id", Num(Show(r.id)), "outcome", OutcomeToJson(r.outcome));
    JoinResponse(Text(r), Print(Num(Show(r.id))), Show(r.id), Print(OutcomeToJson(r.outcome)));
  }

  /** The text of a tag member followed by one more member, with plain keys and tag. */
  lemma TaggedText(tag: string, field: string, v: Json)
    requires Plain(tag) && Plain(field)
    ensures Print(Obj([Member("type", Str(tag)), Member(field, v)])) ==
      "{\"type\":\"" + tag + "\",\"" + field + "\":" + Print(v) + "}"
  {
    PlainKeys();
    PairText("type", Str(tag), field, v);
    QuotePlain(tag);
    JoinTagged(Print(Obj([Member("type", Str(tag)), Member(field, v)])), Print(Str(tag)), tag, field, Print(v));
  }

  lemma OutcomeText(o: Outcome, tag: string, field: string, v: Json)
    requires OutcomeToJson(o) == Obj([Member("type", Str(tag)), Member(field, v)])
    requires Plain(tag) && Plain(field)
    ensures Print(OutcomeToJson(o)) == "{\"type\":\"" + tag + "\",\"" + field + "\":" + Print(v) + "}"
  {
    assert Print(OutcomeToJson(o)) == Print(Obj([Member("type", Str(tag)), Member(field, v)]));
    TaggedText(tag, field, v);
  }

  lemma TextFortyTwo(r: Response)
    requires r.id == 42
    ensures Text(r) == "{\"id\":42,\"outcome\":" + Print(OutcomeToJson(r.outcome)) + "}"
  {
    ShowFortyTwo();
    ResponseText(r);
  }

  /** The text of a response with id 42 whose outcome is a tag and one field, with plain keys and tag. */
  lemma ExampleText(r: Response, tag: string, field: string, v: Json)
    requires r.id == 42
    requires OutcomeToJson(r.outcome) == Obj([Member("type", Str(tag)), Member(field, v)])
    requires Plain(tag) && Plain(field)
    ensures Text(r) == "{\"id\":42,\"outcome\":{\"type\":\"" + tag + "\",\"" + field + "\":" + Print(v) + "}}"
  {
    OutcomeText(r.outcome, tag, field, v);
    TextFortyTwo(r);
    JoinText(Text(r), Print(OutcomeToJson(r.outcome)), tag, field, Print(v));
  }

  /** The outcome objects of the test vectors, and their variant names and fields are plain. */
  lemma VectorOutcomes()
    ensures OutcomeToJson(OfGet(Some("bar"))) == Obj([Member("type", Str("OfGet")), Member("value", Str("bar"))])
    ensures OutcomeToJson(OfSet(true)) == Obj([Member("type", Str("OfSet")), Member("was_modified", Bool(true))])
    ensures OutcomeToJson(Error("whoops!")) == Obj([Member("type", Str("Error")), Member("msg", Str("whoops!"))])
    ensures Plain("OfGet") && Plain("value") && Plain("OfSet") && Plain("was_modified") && Plain("Error") && Plain("msg")
  {
  }

  lemma VectorValues()
    ensures Print(Str("bar")) == "\"bar\""
    ensures Print(Str("whoops!")) == "\"whoops!\""
    ensures Print(Bool(true)) == "true"
  {
    assert Plain("bar") && Plain("whoops!");
    QuotePlain("bar");
    QuotePlain("whoops!");
  }

  lemma EncodeGetExample()
    ensures Text(Response(42, OfGet(Some("bar")))) == "{\"id\":42,\"outcome\":{\"type\":\"OfGet\",\"value\":\"bar\"}}"
  {
    VectorOutcomes();
    ExampleText(Response(42, OfGet(Some("bar"))), "OfGet", "value", Str("bar"));
    VectorValues();
    GetSpelling(Print(Str("bar")));
  }

  lemma EncodeSetExample()
    ensures Text(Response(42, OfSet(true))) == "{\"id\":42,\"outcome\":{\"type\":\"OfSet\",\"was_modified\":true}}"
  {
    VectorOutcomes();
    ExampleText(Response(42, OfSet(true)), "OfSet", "was_modified", Bool(true));
    VectorValues();
    SetSpelling(Print(Bool(true)));
  }

  lemma EncodeErrorExample()
    ensures Text(Response(42, Error("whoops!"))) == "{\"id\":42,\"outcome\":{\"type\":\"Error\",\"msg\":\"whoops!\"}}"
  {
    VectorOutcomes();
    ExampleText(Response(42, Error("whoops!")), "Error", "msg", Str("whoops!"));
    VectorValues();
    ErrorSpelling(Print(Str("whoops!")));
  }

  /** Bytes holding the text of a response decode to that response. */
  lemma DecodeText(r: Response, text: string, hash: Utf8.Bytes -> U64, explain: (Utf8.Bytes, DecodeError) -> string)
    requires Text(r) == text
    ensures Decode(Utf8.Encode(text), hash, explain) == r
  {
    DecodeEncode(r, hash, explain);
  }

  lemma DecodeGetExample(hash: Utf8.Bytes -> U64, explain: (Utf8.Bytes, DecodeError) -> string)
    ensures Decode(Utf8.Encode("{\"id\":42,\"outcome\":{\"type\":\"OfGet\",\"value\":\"bar\"}}"), hash, explain)
      == Response(42, OfGet(Some("bar")))
  {
    EncodeGetExample();
    DecodeText(Response(42, OfGet(Some("bar"))), "{\"id\":42,\"outcome\":{\"type\":\"OfGet\",\"value\":\"bar\"}}", hash, explain);
  }

  lemma DecodeSetExample(hash: Utf8.Bytes -> U64, explain: (Utf8.Bytes, DecodeError) -> string)
    ensures Decode(Utf8.Encode("{\"id\":42,\"outcome\":{\"type\":\"OfSet\",\"was_modified\":true}}"), hash, explain)
      == Response(42, OfSet(true))
  {
    EncodeSetExample();
    DecodeText(Response(42, OfSet(true)), "{\"id\":42,\"outcome\":{\"type\":\"OfSet\",\"was_modified\":true}}", hash, explain);
  }

  /* ----- Strictness and the fallback ----- */

  /** The fallback only ever produces `Invalid`: any other outcome was read from a document of the schema. */
  lemma DecodeNotInvalid(bs: Utf8.Bytes, hash: Utf8.Bytes -> U64, explain: (Utf8.Bytes, DecodeError) -> string)
    requires !Decode(bs, hash, explain).outcome.Invalid?
    ensures Parse(bs) == Success(Decode(bs, hash, explain))
  {
  }

  /** Empty input is a syntax error, so it decodes to `Invalid` under the hash of no bytes. */
  lemma DecodeEmpty(hash: Utf8.Bytes -> U64, explain: (Utf8.Bytes, DecodeError) -> string)
    ensures Decode([], hash, explain) == Response(hash([]), Invalid(explain([], Syntax(EndOfInput))))
  {
    assert Utf8.Decode([]) == Some([]);
    assert ParseValue([]) == Failure(EndOfInput);
  }

  /** Bytes that are not UTF-8 are never a response. */
  lemma DecodeNotUtf8(bs: Utf8.Bytes, hash: Utf8.Bytes -> U64, explain: (Utf8.Bytes, DecodeError) -> string)
    requires Utf8.Decode(bs).None?
    ensures Decode(bs, hash, explain) == Response(hash(bs), Invalid(explain(bs, NotUtf8)))
  {
  }

  /** An extra member at the top level turns a good document into `Invalid`. */
  lemma ExtraTopLevelField(r: Response, k: string, v: Json, hash: Utf8.Bytes -> U64, explain: (Utf8.Bytes, DecodeError) -> string)
    requires k != "id" && k != "outcome" && WellFormed(v)
    ensures var bs := Utf8.Encode(Print(Obj(ToJson(r).members + [Member(k, v)])));
      Decode(bs, hash, explain) == Response(hash(bs), Invalid(explain(bs, Schema(UnknownField(k)))))
  {
    var a, b, c := ToJson(r).members[0], ToJson(r).members[1], Member(k, v);
    var ms := ToJson(r).members + [c];
    assert ms == [a] + ([b] + ([c] + []));
    var text := Print(Obj(ms));
    ToJsonWellFormed(r);
    assert WellFormed(Obj(ms));
    Utf8.DecodeEncode(text);
    ParseDocumentPrint(Obj(ms), []);
    assert text + [] == text;
    var allowed := {"id", "outcome"};
    CheckCons(a, [b, c], allowed, {});
    CheckCons(b, [c], allowed, {"id"});
    CheckCons(c, [], allowed, {"id", "outcome"});
    assert CheckFields(ms, allowed, {}) == Failure(UnknownField(k));
    assert ResponseFromJson(Obj(ms)) == Failure(UnknownField(k));
    assert ParseDocument(text) == Success(Obj(ms));
    assert Parse(Utf8.Encode(text)) == Failure(Schema(UnknownField(k)));
  }

  lemma TaggedKeys(name: string, b: Member, c: Member)
    requires b.key != "type" && c.key != "type"
    ensures var ms := [Member("type", Str(name)), b, c];
      Lookup(ms, "type") == Some(Str(name)) && CountKey(ms, "type") == 1 && Without(ms, "type") == [b] + ([c] + [])
  {
    var a := Member("type", Str(name));
    assert [a, b, c] == [a] + ([b] + ([c] + []));
    KeysCons(a, [b, c], "type");
    KeysCons(b, [c], "type");
    KeysCons(c, [], "type");
  }

  lemma TaggedExtra(name: string, b: Member, c: Member)
    requires IsVariant(name) && b.key == FieldOf(name) && c.key != "type" && c.key != FieldOf(name)
    ensures OutcomeFromJson(Obj([Member("type", Str(name)), b, c])) == Failure(UnknownField(c.key))
  {
    TaggedKeys(name, b, c);
    CheckCons(b, [c], {FieldOf(name)}, {});
    CheckCons(c, [], {FieldOf(name)}, {FieldOf(name)});
    OutcomeObject([Member("type", Str(name)), b, c], name);
  }

  /** The schema refuses an outcome object with a member besides the tag and the variant's field. */
  lemma OutcomeExtraField(o: Outcome, k: string, v: Json)
    requires k != "type" && k != FieldOf(VariantName(o))
    ensures OutcomeFromJson(Obj(OutcomeToJson(o).members + [Member(k, v)])) == Failure(UnknownField(k))
  {
    var name := VariantName(o);
    OutcomeToJsonShape(o);
    var b := Member(FieldOf(name), FieldValue(o));
    assert OutcomeToJson(o).members + [Member(k, v)] == [Member("type", Str(name)), b, Member(k, v)];
    TaggedExtra(name, b, Member(k, v));
  }

  /** An extra member inside the outcome turns a good document into `Invalid`. */
  lemma ExtraOutcomeField(r: Response, k: string, v: Json, hash: Utf8.Bytes -> U64, explain: (Utf8.Bytes, DecodeError) -> string)
    requires k != "type" && k != FieldOf(VariantName(r.outcome)) && WellFormed(v)
    ensures var j := Obj([Member("id", Num(Show(r.id))), Member("outcome", Obj(OutcomeToJson(r.outcome).members + [Member(k, v)]))]);
      var bs := Utf8.Encode(Print(j));
      Decode(bs, hash, explain) == Response(hash(bs), Invalid(explain(bs, Schema(UnknownField(k)))))
  {
    var oj := Obj(OutcomeToJson(r.outcome).members + [Member(k, v)]);
    var j := Obj([Member("id", Num(Show(r.id))), Member("outcome", oj)]);
    var text := Print(j);
    assert WellFormed(j) by {
      CanonicalIsNumber(Show(r.id));
      OutcomeToJsonShape(r.outcome);
      assert WellFormed(oj);
    }
    Utf8.DecodeEncode(text);
    ParseDocumentPrint(j, []);
    assert text + [] == text;
    OutcomeExtraField(r.outcome, k, v);
    IdFromJsonExactly(Num(Show(r.id)), r.id);
    ResponseFromPair(Num(Show(r.id)), oj, r.id);
  }

  /* ----- What the schema accepts beyond the encoder's output ----- */

  /** Members may come in any order: the outcome before the id, the tag after the field. */
  lemma FieldsInAnyOrder(r: Response)
    ensures var o := r.outcome;
      var swapped := Obj([Member(FieldOf(VariantName(o)), FieldValue(o)), Member("type", Str(VariantName(o)))]);
      ResponseFromJson(Obj([Member("outcome", swapped), Member("id", Num(Show(r.id)))])) == Success(r)
  {
    var o := r.outcome;
    var name := VariantName(o);
    var a, b := Member(FieldOf(name), FieldValue(o)), Member("type", Str(name));
    assert [a, b] == [a] + ([b] + []);
    KeysCons(a, [b], "type");
    CheckCons(a, [b], {FieldOf(name)}, {});
    KeysCons(b, [], "type");
    KeysCons(a, [], FieldOf(name));
    CheckCons(a, [], {FieldOf(name)}, {});
    assert Without([a, b], "type") == [a] + [];
    VariantOfField(o);
    assert OutcomeFromJson(Obj([a, b])) == Success(o);
    IdFromJsonExactly(Num(Show(r.id)), r.id);
    ResponseFromPair(Num(Show(r.id)), Obj([a, b]), r.id);
  }

  /** serde's array form: `[id, [tag, field]]`. */
  lemma ArrayForm(r: Response)
    ensures var o := r.outcome;
      ResponseFromJson(Arr([Num(Show(r.id)), Arr([Str(VariantName(o)), FieldValue(o)])])) == Success(r)
  {
    VariantOfField(r.outcome);
    IdFromJsonExactly(Num(Show(r.id)), r.id);
  }

  /** A missing `value` reads as `None`, just as `null` does. */
  lemma MissingValueIsNone()
    ensures OutcomeFromJson(Obj([Member("type", Str("OfGet"))])) == Success(OfGet(None))
    ensures OutcomeFromJson(Obj([Member("type", Str("OfGet")), Member("value", Null)])) == Success(OfGet(None))
  {
    var ms := [Member("type", Str("OfGet"))];
    assert CountKey(ms, "type") == 1;
    assert Without(ms, "type") == [];
    var ms2 := [Member("type", Str("OfGet")), Member("value", Null)];
    assert CountKey(ms2, "type") == 1;
    assert Without(ms2, "type") == [Member("value", Null)];
  }
}
