/**
 * A strict RFC 8259 parser with serde_json's acceptance rules: whitespace is
 * space, tab, line feed and carriage return; no trailing commas; object keys
 * are strings; raw control characters inside strings are refused; `\u`
 * escapes must form whole scalar values (a high surrogate needs its low
 * partner); after the document only whitespace may follow.
 *
 * Every parser takes the remaining text and returns the value read together
 * with the text after it.
 */
module JsonParser {
  import opened Wrappers
  import opened Decimal
  import opened Json

  datatype ParseError =
    | EndOfInput
    | UnexpectedChar(c: char)
    | InvalidNumber
    | InvalidEscape
    | ControlCharInString
    | LoneSurrogate
    | TrailingCharacters

  type Parsed<T> = Result<(T, string), ParseError>

  predicate IsWhitespace(c: char) {
    c == ' ' || c == '\t' || c == '\n' || c == '\r'
  }

  function SkipWs(s: string): (r: string)
    ensures |r| <= |s|
    ensures r == [] || !IsWhitespace(r[0])
  {
    if s != [] && IsWhitespace(s[0]) then SkipWs(s[1..]) else s
  }

  /** Consumes `word` (one of the literal names) at the head of `s`. */
  function Literal(s: string, word: string, v: Json): (r: Parsed<Json>)
    requires |word| > 0
    ensures r.Success? ==> |r.value.1| < |s|
  {
    if |s| >= |word| && s[..|word|] == word then Success((v, s[|word|..]))
    else Failure(UnexpectedChar(if s == [] then ' ' else s[0]))
  }

  function ParseNumber(s: string): (r: Parsed<Json>)
    ensures r.Success? ==> |r.value.1| < |s|
  {
    match NumberEnd(s)
    case None => Failure(InvalidNumber)
    case Some(n) => Success((Num(s[..n]), s[n..]))
  }

  function HexValue(c: char): Option<nat> {
    if '0' <= c <= '9' then Some(c as int - '0' as int)
    else if 'a' <= c <= 'f' then Some(c as int - 'a' as int + 10)
    else if 'A' <= c <= 'F' then Some(c as int - 'A' as int + 10)
    else None
  }

  /** Four hex digits, either case, as a 16-bit code unit. */
  function ParseHex4(s: string): (r: Option<nat>)
    ensures r.Some? ==> r.value < 0x1_0000
  {
    if |s| < 4 then None
    else
      match (HexValue(s[0]), HexValue(s[1]), HexValue(s[2]), HexValue(s[3]))
      case (Some(a), Some(b), Some(c), Some(d)) =>
        if a < 16 && b < 16 && c < 16 && d < 16 then Some(((a * 16 + b) * 16 + c) * 16 + d) else None
      case _ => None
  }

  /** The character an escape stands for; `s` starts just after the backslash. */
  function ParseEscape(s: string): (r: Parsed<char>)
    ensures r.Success? ==> |r.value.1| < |s|
  {
    if s == [] then Failure(EndOfInput)
    else
      var c := s[0];
      if c == '"' then Success(('"', s[1..]))
      else if c == '\\' then Success(('\\', s[1..]))
      else if c == '/' then Success(('/', s[1..]))
      else if c == 'b' then Success(('\U{8}', s[1..]))
      else if c == 'f' then Success(('\U{C}', s[1..]))
      else if c == 'n' then Success(('\n', s[1..]))
      else if c == 'r' then Success(('\r', s[1..]))
      else if c == 't' then Success(('\t', s[1..]))
      else if c != 'u' then Failure(InvalidEscape)
      else
        match ParseHex4(s[1..])
        case None => Failure(InvalidEscape)
        case Some(n) =>
          if 0xDC00 <= n < 0xE000 then Failure(LoneSurrogate)
          else if n < 0xD800 || 0xE000 <= n then Success((n as char, s[5..]))
          else
            var t := s[5..];
            if |t| < 2 || t[0] != '\\' || t[1] != 'u' then Failure(LoneSurrogate)
            else
              match ParseHex4(t[2..])
              case None => Failure(InvalidEscape)
              case Some(low) =>
                if low < 0xDC00 || 0xE000 <= low then Failure(LoneSurrogate)
                else Success((((n - 0xD800) * 0x400 + (low - 0xDC00) + 0x1_0000) as char, t[6..]))
  }

  /** The contents of a string literal; `s` starts just after the opening quote. */
  function ParseString(s: string): (r: Parsed<string>)
    ensures r.Success? ==> |r.value.1| < |s|
    decreases |s|
  {
    if s == [] then Failure(EndOfInput)
    else if s[0] == '"' then Success(([], s[1..]))
    else if s[0] == '\\' then
      match ParseEscape(s[1..])
      case Failure(e) => Failure(e)
      case Success((c, rest)) =>
        match ParseString(rest)
        case Failure(e) => Failure(e)
        case Success((tail, rest')) => Success(([c] + tail, rest'))
    else if IsControl(s[0]) then Failure(ControlCharInString)
    else
      match ParseString(s[1..])
      case Failure(e) => Failure(e)
      case Success((tail, rest)) => Success(([s[0]] + tail, rest))
  }

  /** One value, after optional leading whitespace. */
  function ParseValue(s: string): (r: Parsed<Json>)
    ensures r.Success? ==> |r.value.1| < |s|
    decreases |s|, 0
  {
    var t := SkipWs(s);
    if t == [] then Failure(EndOfInput)
    else if t[0] == 'n' then Literal(t, "null", Null)
    else if t[0] == 't' then Literal(t, "true", Bool(true))
    else if t[0] == 'f' then Literal(t, "false", Bool(false))
    else if t[0] == '"' then
      match ParseString(t[1..])
      case Failure(e) => Failure(e)
      case Success((str, rest)) => Success((Str(str), rest))
    else if t[0] == '[' then ParseArray(t[1..])
    else if t[0] == '{' then ParseObject(t[1..])
    else if t[0] == '-' || IsDigit(t[0]) then ParseNumber(t)
    else Failure(UnexpectedChar(t[0]))
  }

  /** An array's body; `s` starts just after `[`. */
  function ParseArray(s: string): (r: Parsed<Json>)
    ensures r.Success? ==> |r.value.1| < |s|
    decreases |s|, 2
  {
    var t := SkipWs(s);
    if t != [] && t[0] == ']' then Success((Arr([]), t[1..]))
    else
      match ParseElements(t)
      case Failure(e) => Failure(e)
      case Success((items, rest)) => Success((Arr(items), rest))
  }

  /** `value (',' value)* ']'` */
  function ParseElements(s: string): (r: Parsed<seq<Json>>)
    ensures r.Success? ==> |r.value.1| < |s|
    decreases |s|, 1
  {
    match ParseValue(s)
    case Failure(e) => Failure(e)
    case Success((v, rest)) =>
      var t := SkipWs(rest);
      if t == [] then Failure(EndOfInput)
      else if t[0] == ',' then
        match ParseElements(t[1..])
        case Failure(e) => Failure(e)
        case Success((vs, rest')) => Success(([v] + vs, rest'))
      else if t[0] == ']' then Success(([v], t[1..]))
      else Failure(UnexpectedChar(t[0]))
  }

  /** An object's body; `s` starts just after `{`. */
  function ParseObject(s: string): (r: Parsed<Json>)
    ensures r.Success? ==> |r.value.1| < |s|
    decreases |s|, 2
  {
    var t := SkipWs(s);
    if t != [] && t[0] == '}' then Success((Obj([]), t[1..]))
    else
      match ParseMembers(t)
      case Failure(e) => Failure(e)
      case Success((members, rest)) => Success((Obj(members), rest))
  }

  /** `string ':' value`, after optional leading whitespace. */
  function ParseMember(s: string): (r: Parsed<Member>)
    ensures r.Success? ==> |r.value.1| < |s|
    decreases |s|, 0
  {
    var t := SkipWs(s);
    if t == [] then Failure(EndOfInput)
    else if t[0] != '"' then Failure(UnexpectedChar(t[0]))
    else
      match ParseString(t[1..])
      case Failure(e) => Failure(e)
      case Success((key, afterKey)) =>
        var u := SkipWs(afterKey);
        if u == [] then Failure(EndOfInput)
        else if u[0] != ':' then Failure(UnexpectedChar(u[0]))
        else
          match ParseValue(u[1..])
          case Failure(e) => Failure(e)
          case Success((v, rest)) => Success((Member(key, v), rest))
  }

  /** `member (',' member)* '}'` */
  function ParseMembers(s: string): (r: Parsed<seq<Member>>)
    ensures r.Success? ==> |r.value.1| < |s|
    decreases |s|, 1
  {
    match ParseMember(s)
    case Failure(e) => Failure(e)
    case Success((m, rest)) =>
      var w := SkipWs(rest);
      if w == [] then Failure(EndOfInput)
      else if w[0] == ',' then
        match ParseMembers(w[1..])
        case Failure(e) => Failure(e)
        case Success((ms, rest')) => Success(([m] + ms, rest'))
      else if w[0] == '}' then Success(([m], w[1..]))
      else Failure(UnexpectedChar(w[0]))
  }

  /** A whole document: one value with only whitespace around it. */
  function ParseDocument(s: string): (r: Result<Json, ParseError>)
  {
    match ParseValue(s)
    case Failure(e) => Failure(e)
    case Success((v, rest)) => if SkipWs(rest) == [] then Success(v) else Failure(TrailingCharacters)
  }
}
