/**
 * Bytes and the UTF-8 encoding that sits between the JSON text and the wire.
 *
 * `Encode` is what Rust does when it turns a `String` into bytes; `Decode`
 * follows `str::from_utf8`: only shortest-form sequences, no surrogate code
 * points and nothing above U+10FFFF are accepted.
 */
module Utf8 {
  import opened Wrappers

  newtype byte = x: int | 0 <= x < 256

  type Bytes = seq<byte>

  /** The frame delimiter byte, ASCII line feed. */
  const NEWLINE: byte := 10

  predicate IsContinuation(b: byte) {
    0x80 <= b < 0xC0
  }

  /** The bytes of one character: one byte below U+0080, up to four above. */
  function EncodeChar(c: char): (bs: Bytes)
    ensures 1 <= |bs| <= 4
    ensures |bs| == 1 <==> c as int < 0x80
    ensures |bs| == 1 ==> bs[0] as int == c as int
    ensures |bs| > 1 ==> forall i :: 0 <= i < |bs| ==> bs[i] >= 0x80
  {
    var n := c as int;
    if n < 0x80 then
      [n as byte]
    else if n < 0x800 then
      [(0xC0 + n / 0x40) as byte, (0x80 + n % 0x40) as byte]
    else if n < 0x1_0000 then
      [(0xE0 + n / 0x1000) as byte, (0x80 + (n / 0x40) % 0x40) as byte, (0x80 + n % 0x40) as byte]
    else
      [(0xF0 + n / 0x4_0000) as byte, (0x80 + (n / 0x1000) % 0x40) as byte,
       (0x80 + (n / 0x40) % 0x40) as byte, (0x80 + n % 0x40) as byte]
  }

  function Encode(s: string): (bs: Bytes)
    ensures |bs| >= |s|
  {
    if s == [] then [] else EncodeChar(s[0]) + Encode(s[1..])
  }

  /** A code point Rust's `char` can hold. */
  predicate IsScalar(n: int) {
    (0 <= n < 0xD800) || (0xE000 <= n < 0x11_0000)
  }

  /**
   * Decodes the character at the head of `bs` and says how many bytes it
   * took, or `None` when the head is not a well-formed UTF-8 sequence.
   */
  function DecodeChar(bs: Bytes): (r: Option<(char, nat)>)
    requires |bs| > 0
    ensures r.Some? ==> 1 <= r.value.1 <= |bs| && r.value.1 <= 4
    ensures r.Some? && r.value.1 == 1 <==> bs[0] < 0x80
  {
    var b0 := bs[0] as int;
    if b0 < 0x80 then
      Some((b0 as char, 1))
    else if 0xC0 <= b0 < 0xE0 then
      if |bs| < 2 || !IsContinuation(bs[1]) then None
      else
        var n := (b0 - 0xC0) * 0x40 + (bs[1] as int - 0x80);
        if n < 0x80 then None else Some((n as char, 2))
    else if 0xE0 <= b0 < 0xF0 then
      if |bs| < 3 || !IsContinuation(bs[1]) || !IsContinuation(bs[2]) then None
      else
        var n := (b0 - 0xE0) * 0x1000 + (bs[1] as int - 0x80) * 0x40 + (bs[2] as int - 0x80);
        if n < 0x800 || !IsScalar(n) then None else Some((n as char, 3))
    else if 0xF0 <= b0 < 0xF8 then
      if |bs| < 4 || !IsContinuation(bs[1]) || !IsContinuation(bs[2]) || !IsContinuation(bs[3]) then None
      else
        var n := (b0 - 0xF0) * 0x4_0000 + (bs[1] as int - 0x80) * 0x1000
                 + (bs[2] as int - 0x80) * 0x40 + (bs[3] as int - 0x80);
        if n < 0x1_0000 || !IsScalar(n) then None else Some((n as char, 4))
    else
      None
  }

  function Decode(bs: Bytes): (r: Option<string>)
    ensures r.Some? ==> |r.value| <= |bs|
    decreases |bs|
  {
    if bs == [] then Some([])
    else
      match DecodeChar(bs)
      case None => None
      case Some((c, n)) =>
        match Decode(bs[n..])
        case None => None
        case Some(s) => Some([c] + s)
  }

  /** Division by 64 recovers the two halves of `q * 64 + r`. */
  lemma DivMod64(n: int, q: int, r: int)
    requires n == q * 0x40 + r && 0 <= r < 0x40
    ensures n / 0x40 == q && n % 0x40 == r
  {
  }

  lemma DecodeEncodeChar2(c: char, rest: Bytes)
    requires 0x80 <= c as int < 0x800
    ensures DecodeChar(EncodeChar(c) + rest) == Some((c, 2))
  {
    var n := c as int;
    var bs := EncodeChar(c) + rest;
    assert bs[0] as int == 0xC0 + n / 0x40 && bs[1] as int == 0x80 + n % 0x40;
  }

  lemma DecodeEncodeChar3(c: char, rest: Bytes)
    requires 0x800 <= c as int < 0x1_0000
    ensures DecodeChar(EncodeChar(c) + rest) == Some((c, 3))
  {
    var n := c as int;
    var q := n / 0x40;
    var bs := EncodeChar(c) + rest;
    assert bs[0] as int == 0xE0 + q / 0x40 && bs[1] as int == 0x80 + q % 0x40;
    assert bs[2] as int == 0x80 + n % 0x40;
    assert n == (q / 0x40) * 0x1000 + (q % 0x40) * 0x40 + n % 0x40;
  }

  lemma DecodeEncodeChar4(c: char, rest: Bytes)
    requires 0x1_0000 <= c as int
    ensures DecodeChar(EncodeChar(c) + rest) == Some((c, 4))
  {
    var n := c as int;
    var q := n / 0x40;
    var p := q / 0x40;
    assert n / 0x1000 == p;
    assert n / 0x4_0000 == p / 0x40;
    var bs := EncodeChar(c) + rest;
    assert bs[0] as int == 0xF0 + p / 0x40 && bs[1] as int == 0x80 + p % 0x40;
    assert bs[2] as int == 0x80 + q % 0x40 && bs[3] as int == 0x80 + n % 0x40;
    assert n == (p / 0x40) * 0x4_0000 + (p % 0x40) * 0x1000 + (q % 0x40) * 0x40 + n % 0x40;
  }

  /** The head of an encoding decodes to the character that produced it. */
  lemma DecodeEncodeChar(c: char, rest: Bytes)
    ensures DecodeChar(EncodeChar(c) + rest) == Some((c, |EncodeChar(c)|))
  {
    var n := c as int;
    if n < 0x80 {
    } else if n < 0x800 {
      DecodeEncodeChar2(c, rest);
    } else if n < 0x1_0000 {
      DecodeEncodeChar3(c, rest);
    } else {
      DecodeEncodeChar4(c, rest);
    }
  }

  /** Decoding the encoding of any text gives the text back. */
  lemma {:induction false} DecodeEncode(s: string)
    ensures Decode(Encode(s)) == Some(s)
  {
    if s != [] {
      var head := EncodeChar(s[0]);
      var tail := Encode(s[1..]);
      assert Encode(s) == head + tail;
      DecodeEncodeChar(s[0], tail);
      assert (head + tail)[|head|..] == tail;
      DecodeEncode(s[1..]);
      assert s == [s[0]] + s[1..];
    }
  }

  lemma EncodeDecodeChar2(bs: Bytes)
    requires |bs| > 1 && 0xC0 <= bs[0] < 0xE0 && DecodeChar(bs).Some?
    ensures EncodeChar(DecodeChar(bs).value.0) == bs[..2]
  {
    var n := DecodeChar(bs).value.0 as int;
    DivMod64(n, bs[0] as int - 0xC0, bs[1] as int - 0x80);
  }

  lemma EncodeDecodeChar3(bs: Bytes)
    requires |bs| > 2 && 0xE0 <= bs[0] < 0xF0 && DecodeChar(bs).Some?
    ensures EncodeChar(DecodeChar(bs).value.0) == bs[..3]
  {
    var n := DecodeChar(bs).value.0 as int;
    var x0, x1, x2 := bs[0] as int - 0xE0, bs[1] as int - 0x80, bs[2] as int - 0x80;
    DivMod64(n, x0 * 0x40 + x1, x2);
    DivMod64(n / 0x40, x0, x1);
  }

  lemma EncodeDecodeChar4(bs: Bytes)
    requires |bs| > 3 && 0xF0 <= bs[0] < 0xF8 && DecodeChar(bs).Some?
    ensures EncodeChar(DecodeChar(bs).value.0) == bs[..4]
  {
    var n := DecodeChar(bs).value.0 as int;
    var x0, x1, x2, x3 := bs[0] as int - 0xF0, bs[1] as int - 0x80, bs[2] as int - 0x80, bs[3] as int - 0x80;
    DivMod64(n, x0 * 0x1000 + x1 * 0x40 + x2, x3);
    DivMod64(n / 0x40, x0 * 0x40 + x1, x2);
    DivMod64(n / 0x40 / 0x40, x0, x1);
    assert n / 0x1000 == n / 0x40 / 0x40;
    assert n / 0x4_0000 == n / 0x40 / 0x40 / 0x40;
  }

  /** A well-formed head sequence is the encoding of the character it decodes to. */
  lemma EncodeDecodeChar(bs: Bytes)
    requires |bs| > 0 && DecodeChar(bs).Some?
    ensures EncodeChar(DecodeChar(bs).value.0) == bs[..DecodeChar(bs).value.1]
  {
    var b0 := bs[0] as int;
    if b0 < 0x80 {
    } else if b0 < 0xE0 {
      EncodeDecodeChar2(bs);
    } else if b0 < 0xF0 {
      EncodeDecodeChar3(bs);
    } else {
      EncodeDecodeChar4(bs);
    }
  }

  /** The converse: every byte string `Decode` accepts is the encoding of what it returns. */
  lemma {:induction false} EncodeDecode(bs: Bytes)
    requires Decode(bs).Some?
    ensures Encode(Decode(bs).value) == bs
    decreases |bs|
  {
    if bs != [] {
      var n := DecodeChar(bs).value.1;
      EncodeDecodeChar(bs);
      EncodeDecode(bs[n..]);
      assert bs == bs[..n] + bs[n..];
    }
  }

  /** A newline byte appears in the encoding exactly when a newline character appears in the text. */
  lemma {:induction false} NewlineByteIffNewlineChar(s: string)
    ensures NEWLINE in Encode(s) <==> '\n' in s
  {
    if s != [] {
      NewlineByteIffNewlineChar(s[1..]);
      var head := EncodeChar(s[0]);
      assert NEWLINE in head <==> s[0] == '\n';
      assert s == [s[0]] + s[1..];
    }
  }

  lemma {:induction false} EncodeAppend(a: string, b: string)
    ensures Encode(a + b) == Encode(a) + Encode(b)
  {
    if a != [] {
      assert (a + b)[1..] == a[1..] + b;
      EncodeAppend(a[1..], b);
    } else {
      assert a + b == b;
    }
  }
}
