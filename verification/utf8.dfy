/**
 * UTF-8 (section 3.9 of the Unicode Standard, table 3-7) between strings of
 * Unicode scalar values and octets. Encoding always succeeds. Decoding never
 * fails: each maximal ill-formed subsequence becomes one U+FFFD replacement
 * character, which is what the platform decoder that the login check relies
 * on does with malformed input.
 */
module Utf8 {
  import opened Wrappers

  const Replacement: char := '\U{FFFD}'

  /** The octets of one scalar value, shortest form. */
  function EncodeChar(c: char): (b: seq<Byte>)
    ensures 1 <= |b| <= 4
    ensures (|b| == 1) == (c as int < 0x80)
  {
    var x := c as int;
    if x < 0x80 then [x]
    else if x < 0x800 then [0xC0 + x / 0x40, 0x80 + x % 0x40]
    else if x < 0x1_0000 then [0xE0 + x / 0x1000, 0x80 + x / 0x40 % 0x40, 0x80 + x % 0x40]
    else [0xF0 + x / 0x4_0000, 0x80 + x / 0x1000 % 0x40, 0x80 + x / 0x40 % 0x40, 0x80 + x % 0x40]
  }

  /** The octets of a string: the encodings of its characters, in order. */
  function Encode(s: string): (b: seq<Byte>)
    ensures |s| <= |b| <= 4 * |s|
  {
    if |s| == 0 then [] else EncodeChar(s[0]) + Encode(s[1..])
  }

  predicate IsContinuation(b: Byte) {
    0x80 <= b < 0xC0
  }

  /** The character at the head of a non-empty octet string and the number
      of octets it takes. A well-formed sequence gives its scalar value; an
      ill-formed one gives `Replacement` and consumes its longest prefix that
      could still begin a well-formed sequence, and at least one octet. */
  function DecodeHead(b: seq<Byte>): (r: (char, nat))
    requires |b| > 0
    ensures 1 <= r.1 <= |b| && r.1 <= 4
  {
    var b0: int := b[0];
    if b0 < 0x80 then (b0 as char, 1)
    else if 0xC2 <= b0 < 0xE0 then
      if |b| < 2 || !IsContinuation(b[1]) then (Replacement, 1)
      else (((b0 - 0xC0) * 0x40 + (b[1] as int - 0x80)) as char, 2)
    else if 0xE0 <= b0 < 0xF0 then
      // E0 excludes overlong forms, ED excludes the surrogates
      var lo := if b0 == 0xE0 then 0xA0 else 0x80;
      var hi := if b0 == 0xED then 0xA0 else 0xC0;
      if |b| < 2 || !(lo <= b[1] < hi) then (Replacement, 1)
      else if |b| < 3 || !IsContinuation(b[2]) then (Replacement, 2)
      else (((b0 - 0xE0) * 0x1000 + (b[1] as int - 0x80) * 0x40 + (b[2] as int - 0x80)) as char, 3)
    else if 0xF0 <= b0 < 0xF5 then
      // F0 excludes overlong forms, F4 excludes values above U+10FFFF
      var lo := if b0 == 0xF0 then 0x90 else 0x80;
      var hi := if b0 == 0xF4 then 0x90 else 0xC0;
      if |b| < 2 || !(lo <= b[1] < hi) then (Replacement, 1)
      else if |b| < 3 || !IsContinuation(b[2]) then (Replacement, 2)
      else if |b| < 4 || !IsContinuation(b[3]) then (Replacement, 3)
      else (((b0 - 0xF0) * 0x4_0000 + (b[1] as int - 0x80) * 0x1000 + (b[2] as int - 0x80) * 0x40 + (b[3] as int - 0x80)) as char, 4)
    else (Replacement, 1)
  }

  /** Decodes octets to a string, replacing ill-formed input. */
  function Decode(b: seq<Byte>): (s: string)
    ensures |s| <= |b|
    decreases |b|
  {
    if |b| == 0 then []
    else
      var (c, n) := DecodeHead(b);
      [c] + Decode(b[n..])
  }

  lemma TwoOctets(x: int)
    requires 0x80 <= x < 0x800
    ensures 0xC2 <= 0xC0 + x / 0x40 < 0xE0
    ensures (x / 0x40) * 0x40 + x % 0x40 == x
  {
  }

  lemma ThreeOctets(x: int)
    requires 0x800 <= x < 0x1_0000 && !(0xD800 <= x < 0xE000)
    ensures 0 <= x / 0x1000 < 0x10
    ensures x / 0x1000 == 0 ==> 0x20 <= x / 0x40 % 0x40
    ensures x / 0x1000 == 0xD ==> x / 0x40 % 0x40 < 0x20
    ensures (x / 0x1000) * 0x1000 + (x / 0x40 % 0x40) * 0x40 + x % 0x40 == x
  {
    var q, r := x / 0x40, x % 0x40;
    assert x == q * 0x40 + r;
    assert q / 0x40 == x / 0x1000;
    assert q == (q / 0x40) * 0x40 + q % 0x40;
  }

  lemma FourOctets(x: int)
    requires 0x1_0000 <= x < 0x11_0000
    ensures 0 <= x / 0x4_0000 < 5
    ensures x / 0x4_0000 == 0 ==> 0x10 <= x / 0x1000 % 0x40
    ensures x / 0x4_0000 == 4 ==> x / 0x1000 % 0x40 < 0x10
    ensures (x / 0x4_0000) * 0x4_0000 + (x / 0x1000 % 0x40) * 0x1000 + (x / 0x40 % 0x40) * 0x40 + x % 0x40 == x
  {
    var q, r := x / 0x40, x % 0x40;
    var q2, r2 := q / 0x40, q % 0x40;
    assert x == q * 0x40 + r;
    assert q == q2 * 0x40 + r2;
    assert q2 == x / 0x1000;
    assert q2 / 0x40 == x / 0x4_0000;
    assert q2 == (q2 / 0x40) * 0x40 + q2 % 0x40;
  }

  /** The head of the encoding of a character decodes to that character. */
  lemma DecodeHeadEncodeChar(c: char, rest: seq<Byte>)
    ensures DecodeHead(EncodeChar(c) + rest) == (c, |EncodeChar(c)|)
  {
    var x := c as int;
    var e := EncodeChar(c);
    var b := e + rest;
    assert b[..|e|] == e;
    if x < 0x80 {
    } else if x < 0x800 {
      TwoOctets(x);
      assert b[0] as int == 0xC0 + x / 0x40 && b[1] as int == 0x80 + x % 0x40;
    } else if x < 0x1_0000 {
      ThreeOctets(x);
      assert b[0] as int == 0xE0 + x / 0x1000 && b[1] as int == 0x80 + x / 0x40 % 0x40;
      assert b[2] as int == 0x80 + x % 0x40;
    } else {
      FourOctets(x);
      assert b[0] as int == 0xF0 + x / 0x4_0000 && b[1] as int == 0x80 + x / 0x1000 % 0x40;
      assert b[2] as int == 0x80 + x / 0x40 % 0x40 && b[3] as int == 0x80 + x % 0x40;
    }
  }

  /** Decoding undoes encoding: every string survives the trip through
      octets unchanged, and no replacement character is introduced. */
  lemma {:induction false} DecodeEncode(s: string)
    ensures Decode(Encode(s)) == s
  {
    if |s| > 0 {
      var e := EncodeChar(s[0]);
      var b := Encode(s);
      assert b == e + Encode(s[1..]);
      DecodeHeadEncodeChar(s[0], Encode(s[1..]));
      assert b[|e|..] == Encode(s[1..]);
      DecodeEncode(s[1..]);
      assert s == [s[0]] + s[1..];
    }
  }
}
