/**
 * JSON values (RFC 8259) and the compact printer serde_json's `to_vec` uses.
 *
 * A number keeps its lexeme: the schema layer, not the JSON layer, decides
 * which numerals a field accepts.
 */
module Json {
  import opened Wrappers
  import opened Decimal

  datatype Json =
    | Null
    | Bool(b: bool)
    | Num(lexeme: string)
    | Str(s: string)
    | Arr(items: seq<Json>)
    | Obj(members: seq<Member>)

  datatype Member = Member(key: string, value: Json)

  /* ----- Numbers (section 6 of RFC 8259) ----- */

  /** Characters that can continue a number lexeme. */
  predicate IsNumberChar(c: char) {
    IsDigit(c) || c == '-' || c == '+' || c == '.' || c == 'e' || c == 'E'
  }

  /** The first index at or after `i` that does not hold a digit. */
  function DigitRun(s: string, i: nat): (j: nat)
    requires i <= |s|
    ensures i <= j <= |s|
    ensures forall k :: i <= k < j ==> IsDigit(s[k])
    ensures j == |s| || !IsDigit(s[j])
    decreases |s| - i
  {
    if i < |s| && IsDigit(s[i]) then DigitRun(s, i + 1) else i
  }

  /**
   * The end of the integer part at the head of `s`: an optional minus and
   * either a single zero or a digit run not starting with zero. A zero
   * followed by a digit is refused outright, as serde_json does.
   */
  function IntEnd(s: string): (r: Option<nat>)
    ensures r.Some? ==> 0 < r.value <= |s|
  {
    var i := if 0 < |s| && s[0] == '-' then 1 else 0;
    if i == |s| || !IsDigit(s[i]) then None
    else
      var j := if s[i] == '0' then i + 1 else DigitRun(s, i);
      if j < |s| && IsDigit(s[j]) then None else Some(j)
  }

  /** The end of an optional fraction starting at `j`: a point and at least one digit. */
  function FracEnd(s: string, j: nat): (r: Option<nat>)
    requires j <= |s|
    ensures r.Some? ==> j <= r.value <= |s|
  {
    if j < |s| && s[j] == '.' then
      var k := DigitRun(s, j + 1);
      if k == j + 1 then None else Some(k)
    else
      Some(j)
  }

  /** The end of an optional exponent starting at `k`: `e` or `E`, an optional sign, at least one digit. */
  function ExpEnd(s: string, k: nat): (r: Option<nat>)
    requires k <= |s|
    ensures r.Some? ==> k <= r.value <= |s|
  {
    if k < |s| && (s[k] == 'e' || s[k] == 'E') then
      var e := if k + 1 < |s| && (s[k + 1] == '+' || s[k + 1] == '-') then k + 2 else k + 1;
      var m := DigitRun(s, e);
      if m == e then None else Some(m)
    else
      Some(k)
  }

  /** The length of the number lexeme at the head of `s`, or `None` when the head is not a number. */
  function NumberEnd(s: string): (r: Option<nat>)
    ensures r.Some? ==> 0 < r.value <= |s|
  {
    match IntEnd(s)
    case None => None
    case Some(j) =>
      match FracEnd(s, j)
      case None => None
      case Some(k) => ExpEnd(s, k)
  }

  predicate IsNumberLexeme(lexeme: string) {
    NumberEnd(lexeme) == Some(|lexeme|)
  }

  /** A number lexeme is made of number characters only. */
  lemma NumberChars(s: string)
    requires NumberEnd(s).Some?
    ensures forall k :: 0 <= k < NumberEnd(s).value ==> IsNumberChar(s[k])
  {
    var j := IntEnd(s).value;
    var i := if 0 < |s| && s[0] == '-' then 1 else 0;
    assert forall x :: i <= x < j ==> IsDigit(s[x]);
    var k := FracEnd(s, j).value;
    assert forall x :: j <= x < k ==> IsNumberChar(s[x]) by {
      if j < |s| && s[j] == '.' {
        assert forall x :: j + 1 <= x < k ==> IsDigit(s[x]);
      }
    }
    var m := NumberEnd(s).value;
    assert forall x :: k <= x < m ==> IsNumberChar(s[x]) by {
      if k < |s| && (s[k] == 'e' || s[k] == 'E') {
        var e := if k + 1 < |s| && (s[k + 1] == '+' || s[k + 1] == '-') then k + 2 else k + 1;
        assert forall x :: e <= x < m ==> IsDigit(s[x]);
      }
    }
  }

  /** Every number in the value is a complete number lexeme. */
  predicate WellFormed(j: Json)
    decreases j
  {
    match j
    case Num(lexeme) => IsNumberLexeme(lexeme)
    case Arr(items) => forall i :: 0 <= i < |items| ==> WellFormed(items[i])
    case Obj(members) => forall i :: 0 <= i < |members| ==> WellFormed(members[i].value)
    case _ => true
  }

  /* ----- Strings (section 7 of RFC 8259, in serde_json's escaping style) ----- */

  predicate IsControl(c: char) {
    c < ' '
  }

  function HexDigit(d: nat): (c: char)
    requires d < 16
  {
    "0123456789abcdef"[d]
  }

  /**
   * How one character is written inside a string literal: the quote, the
   * backslash and the control characters are escaped, with the two-letter
   * forms where JSON has them and lower-case `\u00XX` otherwise; every other
   * character is written as itself.
   */
  function EscapeChar(c: char): (s: string)
    ensures 1 <= |s| <= 6
    ensures forall i :: 0 <= i < |s| ==> !IsControl(s[i])
    ensures |s| == 1 <==> c != '"' && c != '\\' && !IsControl(c)
    ensures |s| == 1 ==> s[0] == c
    ensures |s| > 1 ==> s[0] == '\\'
  {
    if c == '"' then "\\\""
    else if c == '\\' then "\\\\"
    else if c == '\U{8}' then "\\b"
    else if c == '\U{C}' then "\\f"
    else if c == '\n' then "\\n"
    else if c == '\r' then "\\r"
    else if c == '\t' then "\\t"
    else if IsControl(c) then "\\u00" + [HexDigit(c as int / 16), HexDigit(c as int % 16)]
    else [c]
  }

  function Escape(s: string): (r: string)
    ensures forall i :: 0 <= i < |r| ==> !IsControl(r[i])
  {
    if s == [] then "" else EscapeChar(s[0]) + Escape(s[1..])
  }

  function Quote(s: string): (r: string)
    ensures |r| >= 2 && r[0] == '"' && r[|r| - 1] == '"'
    ensures forall i :: 0 <= i < |r| ==> !IsControl(r[i])
  {
    "\"" + Escape(s) + "\""
  }

  /* ----- The compact printer ----- */

  /** The compact text of a value: no whitespace anywhere, members in the order given. */
  function Print(j: Json): string
    decreases j
  {
    match j
    case Null => "null"
    case Bool(b) => if b then "true" else "false"
    case Num(lexeme) => lexeme
    case Str(s) => Quote(s)
    case Arr(items) => "[" + PrintItems(items) + "]"
    case Obj(members) => "{" + PrintMembers(members) + "}"
  }

  function PrintItems(items: seq<Json>): string
    decreases items
  {
    if items == [] then ""
    else if |items| == 1 then Print(items[0])
    else Print(items[0]) + "," + PrintItems(items[1..])
  }

  function PrintMember(m: Member): string
    decreases m
  {
    Quote(m.key) + ":" + Print(m.value)
  }

  function PrintMembers(members: seq<Member>): string
    decreases members
  {
    if members == [] then ""
    else if |members| == 1 then PrintMember(members[0])
    else PrintMember(members[0]) + "," + PrintMembers(members[1..])
  }
}
