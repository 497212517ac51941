/**
 * What the printer and the parser promise about each other: the parser reads
 * back every well-formed value the printer writes, and the printer never
 * writes a control character (so in particular no line feed).
 */
module JsonRoundTrip {
  import opened Wrappers
  import opened Json
  import opened JsonParser
  import opened JsonSteps

  /** Every well-formed value is read back from its printed text, whatever delimiter follows. */
  lemma {:induction false} ParsePrint(j: Json, rest: string)
    requires WellFormed(j) && Delimited(rest)
    ensures ParseValue(Print(j) + rest) == Success((j, rest))
    decreases j, 2
  {
    match j
    case Arr(items) =>
      BracketText("[", PrintItems(items), "]", rest);
      ParsePrintArray(items, rest);
    case Obj(members) =>
      BracketText("{", PrintMembers(members), "}", rest);
      ParsePrintObject(members, rest);
    case Null =>
      ParsePrintLiteral("null", j, rest);
    case Bool(b) =>
      ParsePrintLiteral(if b then "true" else "false", j, rest);
    case Num(lexeme) =>
      ParsePrintNumber(lexeme, rest);
    case Str(str) =>
      ParsePrintString(str, rest);
  }

  lemma {:induction false} ParsePrintArray(items: seq<Json>, rest: string)
    requires forall i :: 0 <= i < |items| ==> WellFormed(items[i])
    ensures ParseValue("[" + (PrintItems(items) + "]" + rest)) == Success((Arr(items), rest))
    decreases items, 1
  {
    if items == [] {
      var body := PrintItems(items) + "]" + rest;
      ValueOfArray("[" + body);
      assert ("[" + body)[1..] == body;
      assert body == "]" + rest;
      ArrayEmpty(rest);
    } else {
      ParsePrintItems(items, rest);
      ArrayBody(items, rest);
    }
  }

  lemma {:induction false} ParsePrintObject(members: seq<Member>, rest: string)
    requires forall i :: 0 <= i < |members| ==> WellFormed(members[i].value)
    ensures ParseValue("{" + (PrintMembers(members) + "}" + rest)) == Success((Obj(members), rest))
    decreases members, 1
  {
    if members == [] {
      var body := PrintMembers(members) + "}" + rest;
      ValueOfObject("{" + body);
      assert ("{" + body)[1..] == body;
      assert body == "}" + rest;
      ObjectEmpty(rest);
    } else {
      ParsePrintMembers(members, rest);
      ObjectBody(members, rest);
    }
  }

  lemma {:induction false} ParsePrintItems(items: seq<Json>, rest: string)
    requires |items| > 0
    requires forall i :: 0 <= i < |items| ==> WellFormed(items[i])
    ensures ParseElements(PrintItems(items) + "]" + rest) == Success((items, rest))
    decreases items, 0
  {
    if |items| == 1 {
      ParsePrint(items[0], "]" + rest);
      ItemsLast(items, rest);
    } else {
      ParsePrint(items[0], "," + (PrintItems(items[1..]) + "]" + rest));
      ParsePrintItems(items[1..], rest);
      ItemsMore(items, rest);
    }
  }

  lemma {:induction false} ParsePrintMembers(members: seq<Member>, rest: string)
    requires |members| > 0
    requires forall i :: 0 <= i < |members| ==> WellFormed(members[i].value)
    ensures ParseMembers(PrintMembers(members) + "}" + rest) == Success((members, rest))
    decreases members, 0
  {
    if |members| == 1 {
      ParsePrint(members[0].value, "}" + rest);
      MembersLast(members, rest);
    } else {
      ParsePrint(members[0].value, "," + (PrintMembers(members[1..]) + "}" + rest));
      ParsePrintMembers(members[1..], rest);
      MembersMore(members, rest);
    }
  }

  /** A printed value, followed by nothing but whitespace, is a document that parses to the value. */
  lemma ParseDocumentPrint(j: Json, trailing: string)
    requires WellFormed(j) && AllWhitespace(trailing)
    ensures ParseDocument(Print(j) + trailing) == Success(j)
  {
    ParsePrint(j, trailing);
    SkipWsAll(trailing);
  }

  /* ----- No control characters ----- */

  predicate NoControl(s: string) {
    forall i :: 0 <= i < |s| ==> !IsControl(s[i])
  }

  lemma NoControlAppend(a: string, b: string)
    requires NoControl(a) && NoControl(b)
    ensures NoControl(a + b)
  {
  }

  /** The compact text of a well-formed value holds no control character, so no line feed. */
  lemma {:induction false} PrintNoControl(j: Json)
    requires WellFormed(j)
    ensures NoControl(Print(j))
    decreases j, 1
  {
    match j
    case Num(lexeme) =>
      NumberChars(lexeme);
    case Arr(items) =>
      PrintItemsNoControl(items);
    case Obj(members) =>
      PrintMembersNoControl(members);
    case _ =>
  }

  lemma {:induction false} PrintItemsNoControl(items: seq<Json>)
    requires forall i :: 0 <= i < |items| ==> WellFormed(items[i])
    ensures NoControl(PrintItems(items))
    decreases items, 0
  {
    if items != [] {
      PrintNoControl(items[0]);
      if |items| > 1 {
        PrintItemsNoControl(items[1..]);
      }
    }
  }

  lemma {:induction false} PrintMembersNoControl(members: seq<Member>)
    requires forall i :: 0 <= i < |members| ==> WellFormed(members[i].value)
    ensures NoControl(PrintMembers(members))
    decreases members, 0
  {
    if members != [] {
      PrintNoControl(members[0].value);
      assert NoControl(PrintMember(members[0]));
      if |members| > 1 {
        PrintMembersNoControl(members[1..]);
      }
    }
  }
}
