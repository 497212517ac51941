/**
 * Single steps of reading printed text back: how each parser function
 * behaves on text that starts with what the printer writes. The inductions
 * that chain these steps together live in JsonRoundTrip.
 */
module JsonSteps {
  import opened Wrappers
  import opened Decimal
  import opened Json
  import opened JsonParser

  /** Text that may follow a value without becoming part of it. */
  predicate Delimited(rest: string) {
    rest == [] || rest[0] == ',' || rest[0] == ']' || rest[0] == '}' || IsWhitespace(rest[0])
  }

  predicate AllWhitespace(s: string) {
    forall i :: 0 <= i < |s| ==> IsWhitespace(s[i])
  }

  lemma SkipWsIdle(s: string)
    requires s != [] && !IsWhitespace(s[0])
    ensures SkipWs(s) == s
  {
  }

  lemma {:induction false} SkipWsAll(s: string)
    requires AllWhitespace(s)
    ensures SkipWs(s) == []
  {
    if s != [] {
      SkipWsAll(s[1..]);
    }
  }

  /* ----- Strings ----- */

  lemma HexValueOfDigit(d: nat)
    requires d < 16
    ensures HexValue(HexDigit(d)) == Some(d)
  {
  }

  lemma ParseEscapeOf(c: char, rest: string)
    requires |EscapeChar(c)| > 1
    ensures ParseEscape(EscapeChar(c)[1..] + rest) == Success((c, rest))
  {
    var e := EscapeChar(c);
    if IsControl(c) && c != '\U{8}' && c != '\U{C}' && c != '\n' && c != '\r' && c != '\t' {
      var n := c as int;
      var h := "00" + [HexDigit(n / 16), HexDigit(n % 16)];
      assert e == "\\u" + h;
      var s := e[1..] + rest;
      assert s == "u" + (h + rest);
      assert s[1..] == h + rest && s[5..] == rest;
      ParseHex4Of(n, rest);
    }
  }

  /** Four hex digits `00XX` read back as the byte they spell. */
  lemma ParseHex4Of(n: nat, rest: string)
    requires n < 0x20
    ensures ParseHex4("00" + [HexDigit(n / 16), HexDigit(n % 16)] + rest) == Some(n)
  {
    var s := "00" + [HexDigit(n / 16), HexDigit(n % 16)] + rest;
    HexValueOfDigit(n / 16);
    HexValueOfDigit(n % 16);
    assert s[0] == '0' && s[1] == '0' && s[2] == HexDigit(n / 16) && s[3] == HexDigit(n % 16);
  }

  /** One escaped character, then text the string parser reads as `t` and `rest`. */
  lemma StringStep(c: char, tail: string, t: string, rest: string)
    requires ParseString(tail) == Success((t, rest))
    ensures ParseString(EscapeChar(c) + tail) == Success(([c] + t, rest))
  {
    var e := EscapeChar(c);
    var s := e + tail;
    if |e| == 1 {
      assert s[0] == c && s[1..] == tail;
    } else {
      assert s[0] == '\\';
      assert s[1..] == e[1..] + tail;
      ParseEscapeOf(c, tail);
    }
  }

  /** The parser reads back the escaped contents of any string, up to the closing quote. */
  lemma {:induction false} ParseStringOfEscape(s: string, rest: string)
    ensures ParseString(Escape(s) + "\"" + rest) == Success((s, rest))
  {
    if s == [] {
      assert Escape(s) + "\"" + rest == "\"" + rest;
    } else {
      var tail := Escape(s[1..]) + "\"" + rest;
      assert Escape(s) + "\"" + rest == EscapeChar(s[0]) + tail;
      ParseStringOfEscape(s[1..], rest);
      StringStep(s[0], tail, s[1..], rest);
      assert [s[0]] + s[1..] == s;
    }
  }

  /* ----- Numbers ----- */

  lemma {:induction false} DigitRunAppend(a: string, b: string, i: nat)
    requires i <= |a|
    requires b == [] || !IsDigit(b[0])
    ensures DigitRun(a + b, i) == DigitRun(a, i)
    decreases |a| - i
  {
    if i < |a| && IsDigit(a[i]) {
      DigitRunAppend(a, b, i + 1);
    }
  }

  lemma IntEndAppend(a: string, b: string)
    requires IntEnd(a).Some?
    requires b == [] || !IsNumberChar(b[0])
    ensures IntEnd(a + b) == IntEnd(a)
  {
    var s := a + b;
    assert forall x :: 0 <= x < |a| ==> s[x] == a[x];
    var i := if 0 < |a| && a[0] == '-' then 1 else 0;
    if a[i] != '0' {
      DigitRunAppend(a, b, i);
    }
  }

  lemma FracEndAppend(a: string, b: string, j: nat)
    requires j <= |a| && FracEnd(a, j).Some?
    requires b == [] || !IsNumberChar(b[0])
    ensures FracEnd(a + b, j) == FracEnd(a, j)
  {
    var s := a + b;
    assert forall x :: 0 <= x < |a| ==> s[x] == a[x];
    if j < |a| && a[j] == '.' {
      DigitRunAppend(a, b, j + 1);
    }
  }

  lemma ExpEndAppend(a: string, b: string, k: nat)
    requires k <= |a| && ExpEnd(a, k).Some?
    requires b == [] || !IsNumberChar(b[0])
    ensures ExpEnd(a + b, k) == ExpEnd(a, k)
  {
    var s := a + b;
    assert forall x :: 0 <= x < |a| ==> s[x] == a[x];
    if k < |a| && (a[k] == 'e' || a[k] == 'E') {
      var e := if k + 1 < |a| && (a[k + 1] == '+' || a[k + 1] == '-') then k + 2 else k + 1;
      DigitRunAppend(a, b, e);
    }
  }

  /** A complete number lexeme stays complete when followed by a character that cannot extend it. */
  lemma NumberEndAppend(lexeme: string, rest: string)
    requires IsNumberLexeme(lexeme)
    requires rest == [] || !IsNumberChar(rest[0])
    ensures NumberEnd(lexeme + rest) == Some(|lexeme|)
  {
    IntEndAppend(lexeme, rest);
    var j := IntEnd(lexeme).value;
    FracEndAppend(lexeme, rest, j);
    var k := FracEnd(lexeme, j).value;
    ExpEndAppend(lexeme, rest, k);
  }

  /* ----- Values ----- */

  /** Printed text starts with a character the parser dispatches on. */
  lemma PrintStart(j: Json)
    requires WellFormed(j)
    ensures |Print(j)| > 0 && !IsWhitespace(Print(j)[0]) && Print(j)[0] != ']'
  {
    match j
    case Num(lexeme) =>
      NumberChars(lexeme);
      assert IsNumberChar(lexeme[0]);
    case _ =>
  }

  /* One unfolding of the parser at a time, with the inner results given. */

  lemma ValueOfArray(s: string)
    requires s != [] && s[0] == '['
    ensures ParseValue(s) == ParseArray(s[1..])
  {
    SkipWsIdle(s);
    var t := SkipWs(s);
    assert t == s;
    assert !(t[0] == 'n' || t[0] == 't' || t[0] == 'f' || t[0] == '"');
  }

  lemma ValueOfObject(s: string)
    requires s != [] && s[0] == '{'
    ensures ParseValue(s) == ParseObject(s[1..])
  {
    SkipWsIdle(s);
    var t := SkipWs(s);
    assert t == s;
    assert !(t[0] == 'n' || t[0] == 't' || t[0] == 'f' || t[0] == '"' || t[0] == '[');
  }

  lemma ValueOfString(s: string, str: string, rest: string)
    requires s != [] && s[0] == '"'
    requires ParseString(s[1..]) == Success((str, rest))
    ensures ParseValue(s) == Success((Str(str), rest))
  {
    SkipWsIdle(s);
    var t := SkipWs(s);
    assert t == s;
    assert !(t[0] == 'n' || t[0] == 't' || t[0] == 'f');
  }

  lemma ValueOfNumber(s: string)
    requires s != [] && (s[0] == '-' || IsDigit(s[0]))
    ensures ParseValue(s) == ParseNumber(s)
  {
    SkipWsIdle(s);
    var t := SkipWs(s);
    assert t == s;
    assert !(t[0] == 'n' || t[0] == 't' || t[0] == 'f' || t[0] == '"' || t[0] == '[' || t[0] == '{');
  }

  lemma ValueOfLiteral(s: string, word: string, v: Json)
    requires word == "null" || word == "true" || word == "false"
    requires v == (if word == "null" then Null else Bool(word == "true"))
    requires s != [] && s[0] == word[0]
    ensures ParseValue(s) == Literal(s, word, v)
  {
    SkipWsIdle(s);
    var t := SkipWs(s);
    assert t == s;
  }

  lemma ElementsLast(s: string, v: Json, after: string)
    requires ParseValue(s) == Success((v, after))
    requires after != [] && after[0] == ']'
    ensures ParseElements(s) == Success(([v], after[1..]))
  {
    SkipWsIdle(after);
    var t := SkipWs(after);
    assert t == after && t[0] != ',';
  }

  lemma ElementsMore(s: string, v: Json, after: string, vs: seq<Json>, rest: string)
    requires ParseValue(s) == Success((v, after))
    requires after != [] && after[0] == ','
    requires ParseElements(after[1..]) == Success((vs, rest))
    ensures ParseElements(s) == Success(([v] + vs, rest))
  {
    SkipWsIdle(after);
    var t := SkipWs(after);
    assert t == after;
  }

  lemma MemberOf(s: string, key: string, afterKey: string, v: Json, after: string)
    requires s != [] && s[0] == '"'
    requires ParseString(s[1..]) == Success((key, afterKey))
    requires afterKey != [] && afterKey[0] == ':'
    requires ParseValue(afterKey[1..]) == Success((v, after))
    ensures ParseMember(s) == Success((Member(key, v), after))
  {
    SkipWsIdle(s);
    SkipWsIdle(afterKey);
    var t := SkipWs(s);
    assert t == s;
    var u := SkipWs(afterKey);
    assert u == afterKey;
  }

  lemma MembersEnd(s: string, m: Member, after: string)
    requires ParseMember(s) == Success((m, after))
    requires after != [] && after[0] == '}'
    ensures ParseMembers(s) == Success(([m], after[1..]))
  {
    SkipWsIdle(after);
    var w := SkipWs(after);
    assert w == after && w[0] != ',';
  }

  lemma MembersNext(s: string, m: Member, after: string, ms: seq<Member>, rest: string)
    requires ParseMember(s) == Success((m, after))
    requires after != [] && after[0] == ','
    requires ParseMembers(after[1..]) == Success((ms, rest))
    ensures ParseMembers(s) == Success(([m] + ms, rest))
  {
    SkipWsIdle(after);
    var w := SkipWs(after);
    assert w == after;
  }

  lemma ParsePrintLiteral(word: string, v: Json, rest: string)
    requires word == "null" || word == "true" || word == "false"
    requires v == (if word == "null" then Null else Bool(word == "true"))
    requires Delimited(rest)
    ensures ParseValue(word + rest) == Success((v, rest))
  {
    var s := word + rest;
    ValueOfLiteral(s, word, v);
    assert s[..|word|] == word && s[|word|..] == rest;
  }

  lemma ParsePrintNumber(lexeme: string, rest: string)
    requires IsNumberLexeme(lexeme) && Delimited(rest)
    ensures ParseValue(lexeme + rest) == Success((Num(lexeme), rest))
  {
    var s := lexeme + rest;
    IntEndStart(lexeme);
    ValueOfNumber(s);
    NumberEndAppend(lexeme, rest);
    assert s[..|lexeme|] == lexeme && s[|lexeme|..] == rest;
  }

  /** A number lexeme starts with a minus sign or a digit. */
  lemma IntEndStart(s: string)
    requires IntEnd(s).Some?
    ensures s[0] == '-' || IsDigit(s[0])
  {
  }

  lemma ParsePrintString(str: string, rest: string)
    ensures ParseValue(Quote(str) + rest) == Success((Str(str), rest))
  {
    var s := Quote(str) + rest;
    assert s == "\"" + (Escape(str) + "\"" + rest);
    assert s[1..] == Escape(str) + "\"" + rest;
    ParseStringOfEscape(str, rest);
    ValueOfString(s, str, rest);
  }

  lemma ArrayEmpty(rest: string)
    ensures ParseArray("]" + rest) == Success((Arr([]), rest))
  {
    SkipWsIdle("]" + rest);
    assert ("]" + rest)[1..] == rest;
  }

  lemma ArrayNonEmpty(body: string, items: seq<Json>, rest: string)
    requires ParseElements(body) == Success((items, rest))
    requires body != [] && !IsWhitespace(body[0]) && body[0] != ']'
    ensures ParseArray(body) == Success((Arr(items), rest))
  {
    SkipWsIdle(body);
  }

  lemma ObjectEmpty(rest: string)
    ensures ParseObject("}" + rest) == Success((Obj([]), rest))
  {
    SkipWsIdle("}" + rest);
    assert ("}" + rest)[1..] == rest;
  }

  lemma ObjectNonEmpty(body: string, members: seq<Member>, rest: string)
    requires ParseMembers(body) == Success((members, rest))
    requires body != [] && body[0] == '"'
    ensures ParseObject(body) == Success((Obj(members), rest))
  {
    SkipWsIdle(body);
  }

  lemma BracketText(open: string, body: string, close: string, rest: string)
    ensures open + body + close + rest == open + (body + close + rest)
  {
  }

  lemma Reassociate(a: string, sep: string, t: string, close: string, rest: string)
    ensures a + sep + t + close + rest == a + (sep + (t + close + rest))
  {
  }

  lemma PrintItemsUnfold(items: seq<Json>)
    requires |items| > 1
    ensures PrintItems(items) == Print(items[0]) + "," + PrintItems(items[1..])
  {
  }

  lemma PrintMembersUnfold(members: seq<Member>)
    requires |members| > 1
    ensures PrintMembers(members) == PrintMember(members[0]) + "," + PrintMembers(members[1..])
  {
  }

  lemma PrintMemberText(m: Member, after: string)
    ensures PrintMember(m) + after == "\"" + (Escape(m.key) + "\"" + (":" + (Print(m.value) + after)))
  {
  }

  /** The text after `[` of a non-empty printed array, given its elements read back. */
  lemma ArrayBody(items: seq<Json>, rest: string)
    requires |items| > 0 && WellFormed(items[0])
    requires ParseElements(PrintItems(items) + "]" + rest) == Success((items, rest))
    ensures ParseValue("[" + (PrintItems(items) + "]" + rest)) == Success((Arr(items), rest))
  {
    var body := PrintItems(items) + "]" + rest;
    ValueOfArray("[" + body);
    assert ("[" + body)[1..] == body;
    PrintStart(items[0]);
    if |items| > 1 {
      PrintItemsUnfold(items);
      Reassociate(Print(items[0]), ",", PrintItems(items[1..]), "]", rest);
    }
    assert body[0] == Print(items[0])[0];
    ArrayNonEmpty(body, items, rest);
  }

  lemma ObjectBody(members: seq<Member>, rest: string)
    requires |members| > 0
    requires ParseMembers(PrintMembers(members) + "}" + rest) == Success((members, rest))
    ensures ParseValue("{" + (PrintMembers(members) + "}" + rest)) == Success((Obj(members), rest))
  {
    var body := PrintMembers(members) + "}" + rest;
    ValueOfObject("{" + body);
    assert ("{" + body)[1..] == body;
    if |members| > 1 {
      PrintMembersUnfold(members);
      Reassociate(PrintMember(members[0]), ",", PrintMembers(members[1..]), "}", rest);
    }
    PrintMemberText(members[0], body[|PrintMember(members[0])|..]);
    assert body[0] == '"';
    ObjectNonEmpty(body, members, rest);
  }
  lemma ItemsLast(items: seq<Json>, rest: string)
    requires |items| == 1
    requires ParseValue(Print(items[0]) + ("]" + rest)) == Success((items[0], "]" + rest))
    ensures ParseElements(PrintItems(items) + "]" + rest) == Success((items, rest))
  {
    var after := "]" + rest;
    assert PrintItems(items) + "]" + rest == Print(items[0]) + after;
    ElementsLast(Print(items[0]) + after, items[0], after);
    assert after[1..] == rest;
    assert [items[0]] == items;
  }

  lemma ItemsMore(items: seq<Json>, rest: string)
    requires |items| > 1
    requires ParseValue(Print(items[0]) + ("," + (PrintItems(items[1..]) + "]" + rest)))
      == Success((items[0], "," + (PrintItems(items[1..]) + "]" + rest)))
    requires ParseElements(PrintItems(items[1..]) + "]" + rest) == Success((items[1..], rest))
    ensures ParseElements(PrintItems(items) + "]" + rest) == Success((items, rest))
  {
    var tail := PrintItems(items[1..]) + "]" + rest;
    var after := "," + tail;
    PrintItemsUnfold(items);
    Reassociate(Print(items[0]), ",", PrintItems(items[1..]), "]", rest);
    assert after[1..] == tail;
    ElementsMore(Print(items[0]) + after, items[0], after, items[1..], rest);
    assert [items[0]] + items[1..] == items;
  }
  /** A printed member, followed by `after`, is read back once its value is. */
  lemma ParsePrintMember(m: Member, after: string)
    requires ParseValue(Print(m.value) + after) == Success((m.value, after))
    ensures ParseMember(PrintMember(m) + after) == Success((m, after))
  {
    var text := PrintMember(m) + after;
    var valueText := Print(m.value) + after;
    var afterKey := ":" + valueText;
    PrintMemberText(m, after);
    assert text[1..] == Escape(m.key) + "\"" + afterKey;
    ParseStringOfEscape(m.key, afterKey);
    assert afterKey[1..] == valueText;
    MemberOf(text, m.key, afterKey, m.value, after);
    assert Member(m.key, m.value) == m;
  }

  lemma MembersLast(members: seq<Member>, rest: string)
    requires |members| == 1
    requires ParseValue(Print(members[0].value) + ("}" + rest)) == Success((members[0].value, "}" + rest))
    ensures ParseMembers(PrintMembers(members) + "}" + rest) == Success((members, rest))
  {
    var after := "}" + rest;
    assert PrintMembers(members) + "}" + rest == PrintMember(members[0]) + after;
    ParsePrintMember(members[0], after);
    MembersEnd(PrintMember(members[0]) + after, members[0], after);
    assert after[1..] == rest;
    assert [members[0]] == members;
  }

  lemma MembersMore(members: seq<Member>, rest: string)
    requires |members| > 1
    requires ParseValue(Print(members[0].value) + ("," + (PrintMembers(members[1..]) + "}" + rest)))
      == Success((members[0].value, "," + (PrintMembers(members[1..]) + "}" + rest)))
    requires ParseMembers(PrintMembers(members[1..]) + "}" + rest) == Success((members[1..], rest))
    ensures ParseMembers(PrintMembers(members) + "}" + rest) == Success((members, rest))
  {
    var tail := PrintMembers(members[1..]) + "}" + rest;
    var after := "," + tail;
    PrintMembersUnfold(members);
    Reassociate(PrintMember(members[0]), ",", PrintMembers(members[1..]), "}", rest);
    assert after[1..] == tail;
    ParsePrintMember(members[0], after);
    MembersNext(PrintMember(members[0]) + after, members[0], after, members[1..], rest);
    assert [members[0]] + members[1..] == members;
  }
}
