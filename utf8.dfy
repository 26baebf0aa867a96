/** UTF-8 as the bot's Rust code meets it: `str::from_utf8` (checking avconv's
    stderr and the recognizer's response body), `read_to_string` (the preference
    file) and `String::as_bytes` (the preference snapshot). A Dafny `char` is a
    Unicode scalar value, the same set as Rust's `char`. */
module Utf8 {
  import opened Common

  predicate IsContinuation(b: byte) {
    0x80 <= b <= 0xBF
  }

  /** The scalar value encoded at the start of `s` and the number of bytes it
      occupies, following the table of well-formed byte sequences in section 3.9
      of the Unicode Standard (Table 3-7): no overlong forms, no surrogates,
      nothing above U+10FFFF. None when `s` does not start with such a sequence. */
  function DecodeFirst(s: seq<byte>): (r: Option<(char, nat)>)
    ensures r.Some? ==> 1 <= r.value.1 <= 4 && r.value.1 <= |s|
  {
    if |s| == 0 then None
    else
      var b0 := s[0] as int;
      if b0 < 0x80 then Some((b0 as char, 1))
      else if 0xC2 <= b0 <= 0xDF then
        if |s| >= 2 && IsContinuation(s[1]) then
          Some((((b0 - 0xC0) * 0x40 + (s[1] as int - 0x80)) as char, 2))
        else None
      else if 0xE0 <= b0 <= 0xEF then
        var lo := if b0 == 0xE0 then 0xA0 else 0x80;
        var hi := if b0 == 0xED then 0x9F else 0xBF;
        if |s| >= 3 && lo <= s[1] as int <= hi && IsContinuation(s[2]) then
          Some((((b0 - 0xE0) * 0x1000 + (s[1] as int - 0x80) * 0x40 + (s[2] as int - 0x80)) as char, 3))
        else None
      else if 0xF0 <= b0 <= 0xF4 then
        var lo := if b0 == 0xF0 then 0x90 else 0x80;
        var hi := if b0 == 0xF4 then 0x8F else 0xBF;
        if |s| >= 4 && lo <= s[1] as int <= hi && IsContinuation(s[2]) && IsContinuation(s[3]) then
          Some((((b0 - 0xF0) * 0x40000 + (s[1] as int - 0x80) * 0x1000
                 + (s[2] as int - 0x80) * 0x40 + (s[3] as int - 0x80)) as char, 4))
        else None
      else None
  }

  /** `str::from_utf8`: the text `b` encodes, or None when `b` is not well-formed UTF-8. */
  function Decode(b: seq<byte>): Option<string>
    decreases |b|
  {
    if b == [] then Some([])
    else
      match DecodeFirst(b)
      case None => None
      case Some((c, n)) =>
        match Decode(b[n..])
        case None => None
        case Some(rest) => Some([c] + rest)
  }

  /** The UTF-8 encoding of one scalar value. */
  function EncodeChar(c: char): (bs: seq<byte>)
    ensures 1 <= |bs| <= 4
  {
    var cp := c as int;
    if cp < 0x80 then [cp as byte]
    else if cp < 0x800 then [(0xC0 + cp / 0x40) as byte, (0x80 + cp % 0x40) as byte]
    else if cp < 0x10000 then
      [(0xE0 + cp / 0x1000) as byte, (0x80 + cp / 0x40 % 0x40) as byte, (0x80 + cp % 0x40) as byte]
    else
      [(0xF0 + cp / 0x40000) as byte, (0x80 + cp / 0x1000 % 0x40) as byte,
       (0x80 + cp / 0x40 % 0x40) as byte, (0x80 + cp % 0x40) as byte]
  }

  /** `String::as_bytes`: the UTF-8 encoding of a text. */
  function Encode(s: string): seq<byte> {
    if s == [] then [] else EncodeChar(s[0]) + Encode(s[1..])
  }

  /** Euclidean division by 64 undone: a quotient and a 6-bit remainder are recovered. */
  lemma DivMod64(q: int, r: int)
    requires q >= 0 && 0 <= r < 0x40
    ensures (q * 0x40 + r) / 0x40 == q && (q * 0x40 + r) % 0x40 == r
  {
  }

  /** Decoding the first scalar value of an encoding gives that value back. */
  lemma DecodeFirstEncodeChar(c: char, rest: seq<byte>)
    ensures DecodeFirst(EncodeChar(c) + rest) == Some((c, |EncodeChar(c)|))
  {
    var cp := c as int;
    var s := EncodeChar(c) + rest;
    if cp < 0x80 {
    } else if cp < 0x800 {
      assert cp == (cp / 0x40) * 0x40 + cp % 0x40;
    } else if cp < 0x10000 {
      assert cp / 0x40 == (cp / 0x1000) * 0x40 + cp / 0x40 % 0x40;
      assert cp == (cp / 0x40) * 0x40 + cp % 0x40;
    } else {
      assert cp / 0x1000 == (cp / 0x40000) * 0x40 + cp / 0x1000 % 0x40;
      assert cp / 0x40 == (cp / 0x1000) * 0x40 + cp / 0x40 % 0x40;
      assert cp == (cp / 0x40) * 0x40 + cp % 0x40;
    }
  }

  /** A decoded scalar value re-encodes to exactly the bytes it was decoded from:
      the decoder accepts one encoding per scalar value. */
  lemma EncodeCharDecodeFirst(s: seq<byte>)
    requires DecodeFirst(s).Some?
    ensures EncodeChar(DecodeFirst(s).value.0) == s[..DecodeFirst(s).value.1]
  {
    var (c, n) := DecodeFirst(s).value;
    var b0 := s[0] as int;
    if n == 2 {
      DivMod64(b0 - 0xC0, s[1] as int - 0x80);
    } else if n == 3 {
      var hi := (b0 - 0xE0) * 0x40 + (s[1] as int - 0x80);
      DivMod64(b0 - 0xE0, s[1] as int - 0x80);
      DivMod64(hi, s[2] as int - 0x80);
      assert c as int == hi * 0x40 + (s[2] as int - 0x80);
    } else if n == 4 {
      var top := (b0 - 0xF0) * 0x40 + (s[1] as int - 0x80);
      var mid := top * 0x40 + (s[2] as int - 0x80);
      DivMod64(b0 - 0xF0, s[1] as int - 0x80);
      DivMod64(top, s[2] as int - 0x80);
      DivMod64(mid, s[3] as int - 0x80);
      assert c as int == mid * 0x40 + (s[3] as int - 0x80);
    }
  }

  /** Round trip: decoding an encoded text gives the text back. */
  lemma {:induction false} DecodeEncode(s: string)
    ensures Decode(Encode(s)) == Some(s)
  {
    if s != [] {
      var e := EncodeChar(s[0]);
      DecodeFirstEncodeChar(s[0], Encode(s[1..]));
      assert (e + Encode(s[1..]))[|e|..] == Encode(s[1..]);
      DecodeEncode(s[1..]);
      assert [s[0]] + s[1..] == s;
    }
  }

  /** Round trip the other way: bytes that decode are the encoding of what they decode to. */
  lemma {:induction false} EncodeDecode(b: seq<byte>)
    requires Decode(b).Some?
    ensures Encode(Decode(b).value) == b
    decreases |b|
  {
    if b != [] {
      var (c, n) := DecodeFirst(b).value;
      EncodeCharDecodeFirst(b);
      EncodeDecode(b[n..]);
      var t := Decode(b).value;
      assert t[0] == c && t[1..] == Decode(b[n..]).value;
      assert b == b[..n] + b[n..];
    }
  }

  /** The two round trips together: `b` is valid UTF-8 for text `s` exactly when `b` encodes `s`. */
  lemma DecodeIffEncode(b: seq<byte>, s: string)
    ensures Decode(b) == Some(s) <==> b == Encode(s)
  {
    if Decode(b) == Some(s) {
      EncodeDecode(b);
    }
    if b == Encode(s) {
      DecodeEncode(s);
    }
  }
}
