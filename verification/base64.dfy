/**
 * The base 64 encoding of section 4 of RFC 4648: the alphabet of Table 1,
 * three octets to four symbols, and `=` padding for a final group of one or
 * two octets. The user records store their password in this encoding.
 */
module Base64 {
  import opened Wrappers

  /** A 6-bit group, the value of one symbol of the alphabet. */
  type Sextet = v: int | 0 <= v < 64

  const Pad: char := '='

  /** The code point of the symbol for a 6-bit value (Table 1 of RFC 4648):
      `A`-`Z`, `a`-`z`, `0`-`9`, `+`, `/`. */
  function SymbolCode(v: Sextet): (n: int)
    ensures 0 <= n < 0x80 && n != '=' as int
  {
    if v < 26 then v + 65
    else if v < 52 then v + 71
    else if v < 62 then v - 4
    else if v == 62 then 43
    else 47
  }

  /** The symbol for a 6-bit value. */
  function Symbol(v: Sextet): (c: char)
    ensures c != Pad
  {
    SymbolCode(v) as char
  }

  /** The 6-bit value of a symbol; `None` for padding and for every
      character outside the alphabet. */
  function Value(c: char): (r: Option<Sextet>)
  {
    var n := c as int;
    if 65 <= n <= 90 then Some(n - 65)
    else if 97 <= n <= 122 then Some(n - 71)
    else if 48 <= n <= 57 then Some(n + 4)
    else if n == 43 then Some(62)
    else if n == 47 then Some(63)
    else None
  }

  /** `Value` and `Symbol` are inverse bijections between the 64 values
      and the 64 characters of the alphabet. */
  lemma ValueOfSymbol(v: Sextet)
    ensures Value(Symbol(v)) == Some(v)
  {
  }

  lemma SymbolOfValue(c: char)
    requires Value(c).Some?
    ensures Symbol(Value(c).value) == c
  {
  }

  /** Four symbols for a full group of three octets. */
  function EncodeGroup(x: Byte, y: Byte, z: Byte): (r: seq<char>)
    ensures |r| == 4
  {
    [Symbol(x / 4), Symbol(x % 4 * 16 + y / 16), Symbol(y % 16 * 4 + z / 64), Symbol(z % 64)]
  }

  /** The octets carried by four 6-bit values, most significant bits first:
      the inverse of the split made by `EncodeGroup`. */
  function Join(v0: int, v1: int, v2: int, v3: int): (r: seq<Byte>)
    requires 0 <= v0 < 64 && 0 <= v1 < 64 && 0 <= v2 < 64 && 0 <= v3 < 64
    ensures |r| == 3
  {
    [v0 * 4 + v1 / 16, v1 % 16 * 16 + v2 / 4, v2 % 4 * 64 + v3]
  }

  /** Splitting three octets into four 6-bit values and joining them back
      gives the octets again. */
  lemma SplitJoin(x: Byte, y: Byte, z: Byte)
    ensures Join(x / 4, x % 4 * 16 + y / 16, y % 16 * 4 + z / 64, z % 64) == [x, y, z]
  {
    var v1 := x % 4 * 16 + y / 16;
    var v2 := y % 16 * 4 + z / 64;
    assert v1 / 16 == x % 4 && v1 % 16 == y / 16;
    assert v2 / 4 == y % 16 && v2 % 4 == z / 64;
  }

  /** Joining four 6-bit values into octets and splitting them again gives
      the values back. */
  lemma JoinSplit(v0: int, v1: int, v2: int, v3: int)
    requires 0 <= v0 < 64 && 0 <= v1 < 64 && 0 <= v2 < 64 && 0 <= v3 < 64
    ensures var q := Join(v0, v1, v2, v3);
      q[0] / 4 == v0 && q[0] % 4 * 16 + q[1] / 16 == v1 && q[1] % 16 * 4 + q[2] / 64 == v2 && q[2] % 64 == v3
  {
    var q := Join(v0, v1, v2, v3);
    assert q[0] / 4 == v0 && q[0] % 4 == v1 / 16;
    assert q[1] / 16 == v1 % 16 && q[1] % 16 == v2 / 4;
    assert q[2] / 64 == v2 % 4 && q[2] % 64 == v3;
  }

  /** Encodes octets as base 64 text, padding the final group. */
  function Encode(b: seq<Byte>): (s: seq<char>)
    ensures |s| == 4 * ((|b| + 2) / 3)
    decreases |b|
  {
    if |b| == 0 then []
    else if |b| == 1 then [Symbol(b[0] / 4), Symbol(b[0] % 4 * 16), Pad, Pad]
    else if |b| == 2 then [Symbol(b[0] / 4), Symbol(b[0] % 4 * 16 + b[1] / 16), Symbol(b[1] % 16 * 4), Pad]
    else EncodeGroup(b[0], b[1], b[2]) + Encode(b[3..])
  }

  /** Decodes four symbols that carry three octets (no padding). */
  function DecodeGroup(a: char, b: char, c: char, d: char): (r: Option<seq<Byte>>)
    ensures r.Some? ==> |r.value| == 3
  {
    match (Value(a), Value(b), Value(c), Value(d))
    case (Some(v0), Some(v1), Some(v2), Some(v3)) =>
      Some(Join(v0, v1, v2, v3))
    case _ => None
  }

  /** Decodes the last four symbols of a text, which may end in one or two
      pad characters. The bits a padded group leaves over must be zero
      (section 3.5 of RFC 4648), so every octet string has one encoding. */
  function DecodeLast(a: char, b: char, c: char, d: char): (r: Option<seq<Byte>>)
    ensures r.Some? ==> 1 <= |r.value| <= 3
  {
    if c == Pad && d == Pad then
      match (Value(a), Value(b))
      case (Some(v0), Some(v1)) =>
        if v1 % 16 == 0 then Some(Join(v0, v1, 0, 0)[..1]) else None
      case _ => None
    else if d == Pad then
      match (Value(a), Value(b), Value(c))
      case (Some(v0), Some(v1), Some(v2)) =>
        if v2 % 4 == 0 then Some(Join(v0, v1, v2, 0)[..2]) else None
      case _ => None
    else DecodeGroup(a, b, c, d)
  }

  /** Decodes base 64 text; `None` when the text is not the encoding of any
      octet string (bad length, a character outside the alphabet, misplaced
      padding, non-zero leftover bits). */
  function Decode(s: seq<char>): (r: Option<seq<Byte>>)
    ensures r.Some? ==> |s| % 4 == 0 && 3 * (|s| / 4) - 2 <= |r.value| <= 3 * (|s| / 4)
    ensures r.Some? ==> (|r.value| == 0 <==> |s| == 0)
    decreases |s|
  {
    if |s| == 0 then Some([])
    else if |s| < 4 then None
    else if |s| == 4 then DecodeLast(s[0], s[1], s[2], s[3])
    else
      match DecodeGroup(s[0], s[1], s[2], s[3])
      case None => None
      case Some(q) =>
        match Decode(s[4..])
        case None => None
        case Some(rest) => Some(q + rest)
  }

  lemma GroupRoundTrip(x: Byte, y: Byte, z: Byte)
    ensures var g := EncodeGroup(x, y, z); DecodeGroup(g[0], g[1], g[2], g[3]) == Some([x, y, z])
  {
    var v0, v1, v2, v3 := x / 4, x % 4 * 16 + y / 16, y % 16 * 4 + z / 64, z % 64;
    var g := EncodeGroup(x, y, z);
    ValueOfSymbol(v0);
    ValueOfSymbol(v1);
    ValueOfSymbol(v2);
    ValueOfSymbol(v3);
    assert Value(g[0]) == Some(v0) && Value(g[1]) == Some(v1);
    assert Value(g[2]) == Some(v2) && Value(g[3]) == Some(v3);
    SplitJoin(x, y, z);
  }

  lemma OneOctetRoundTrip(x: Byte)
    ensures var s := Encode([x]); DecodeLast(s[0], s[1], s[2], s[3]) == Some([x])
  {
    var v0, v1 := x / 4, x % 4 * 16;
    var s := Encode([x]);
    assert s == [Symbol(v0), Symbol(v1), Pad, Pad];
    ValueOfSymbol(v0);
    ValueOfSymbol(v1);
    SplitJoin(x, 0, 0);
    assert Join(v0, v1, 0, 0)[..1] == [x];
  }

  lemma TwoOctetRoundTrip(x: Byte, y: Byte)
    ensures var s := Encode([x, y]); DecodeLast(s[0], s[1], s[2], s[3]) == Some([x, y])
  {
    var v0, v1, v2 := x / 4, x % 4 * 16 + y / 16, y % 16 * 4;
    var s := Encode([x, y]);
    assert s == [Symbol(v0), Symbol(v1), Symbol(v2), Pad];
    ValueOfSymbol(v0);
    ValueOfSymbol(v1);
    ValueOfSymbol(v2);
    SplitJoin(x, y, 0);
    assert Join(v0, v1, v2, 0)[..2] == [x, y];
  }

  /** Decoding a text of more than one group: the first group, then the rest. */
  lemma {:induction false} DecodeFirstGroup(g: seq<char>, rest: seq<char>, q: seq<Byte>)
    requires |g| == 4 && |rest| > 0
    requires DecodeGroup(g[0], g[1], g[2], g[3]) == Some(q)
    ensures Decode(g + rest) == match Decode(rest) case None => None case Some(r) => Some(q + r)
  {
    var s := g + rest;
    assert s[..4] == g && s[4..] == rest;
  }

  lemma {:induction false} EncodeFirstGroup(b: seq<Byte>)
    requires |b| >= 3
    ensures Encode(b) == EncodeGroup(b[0], b[1], b[2]) + Encode(b[3..])
  {
  }

  /** The inductive step of `DecodeEncode`: one more full group in front. */
  lemma {:induction false} DecodeEncodeStep(b: seq<Byte>)
    requires |b| > 3
    requires Decode(Encode(b[3..])) == Some(b[3..])
    ensures Decode(Encode(b)) == Some(b)
  {
    var g := EncodeGroup(b[0], b[1], b[2]);
    var rest := Encode(b[3..]);
    var q: seq<Byte> := [b[0], b[1], b[2]];
    EncodeFirstGroup(b);
    GroupRoundTrip(b[0], b[1], b[2]);
    DecodeFirstGroup(g, rest, q);
    assert Decode(Encode(b)) == Some(q + b[3..]);
    assert b == q + b[3..];
  }

  /** Decoding undoes encoding. */
  lemma {:induction false} DecodeEncode(b: seq<Byte>)
    ensures Decode(Encode(b)) == Some(b)
    decreases |b|
  {
    if |b| == 0 {
    } else if |b| == 1 {
      OneOctetRoundTrip(b[0]);
      assert b == [b[0]];
    } else if |b| == 2 {
      TwoOctetRoundTrip(b[0], b[1]);
      assert b == [b[0], b[1]];
    } else if |b| == 3 {
      EncodeFirstGroup(b);
      GroupRoundTrip(b[0], b[1], b[2]);
      assert Encode(b) == EncodeGroup(b[0], b[1], b[2]);
      assert b == [b[0], b[1], b[2]];
    } else {
      DecodeEncode(b[3..]);
      DecodeEncodeStep(b);
    }
  }

  lemma GroupCanonical(a: char, b: char, c: char, d: char)
    requires DecodeGroup(a, b, c, d).Some?
    ensures var q := DecodeGroup(a, b, c, d).value; EncodeGroup(q[0], q[1], q[2]) == [a, b, c, d]
  {
    var v0, v1, v2, v3 := Value(a).value, Value(b).value, Value(c).value, Value(d).value;
    JoinSplit(v0, v1, v2, v3);
    SymbolOfValue(a);
    SymbolOfValue(b);
    SymbolOfValue(c);
    SymbolOfValue(d);
  }

  lemma LastCanonical(a: char, b: char, c: char, d: char)
    requires DecodeLast(a, b, c, d).Some?
    ensures Encode(DecodeLast(a, b, c, d).value) == [a, b, c, d]
  {
    var q := DecodeLast(a, b, c, d).value;
    if c == Pad && d == Pad {
      var v0, v1 := Value(a).value, Value(b).value;
      JoinSplit(v0, v1, 0, 0);
      SymbolOfValue(a);
      SymbolOfValue(b);
      assert Encode(q) == [Symbol(v0), Symbol(v1), Pad, Pad];
    } else if d == Pad {
      var v0, v1, v2 := Value(a).value, Value(b).value, Value(c).value;
      JoinSplit(v0, v1, v2, 0);
      SymbolOfValue(a);
      SymbolOfValue(b);
      SymbolOfValue(c);
      assert Encode(q) == [Symbol(v0), Symbol(v1), Symbol(v2), Pad];
    } else {
      GroupCanonical(a, b, c, d);
      EncodeFirstGroup(q);
      assert q[3..] == [];
    }
  }

  /** Encoding undoes decoding: a text that decodes is the encoding of
      what it decodes to. */
  lemma {:induction false} EncodeDecode(s: seq<char>)
    requires Decode(s).Some?
    ensures Encode(Decode(s).value) == s
    decreases |s|
  {
    if |s| == 0 {
    } else if |s| == 4 {
      LastCanonical(s[0], s[1], s[2], s[3]);
    } else {
      var q := DecodeGroup(s[0], s[1], s[2], s[3]).value;
      var rest := Decode(s[4..]).value;
      EncodeDecode(s[4..]);
      GroupCanonical(s[0], s[1], s[2], s[3]);
      var b := q + rest;
      assert Decode(s) == Some(b);
      assert b[..3] == q && b[3..] == rest;
      EncodeFirstGroup(b);
      assert s == s[..4] + s[4..];
    }
  }

  /** The text `s` decodes to `b` exactly when `s` is the encoding of `b`. */
  lemma DecodeIffEncode(s: seq<char>, b: seq<Byte>)
    ensures Decode(s) == Some(b) <==> s == Encode(b)
  {
    if Decode(s) == Some(b) {
      EncodeDecode(s);
    }
    if s == Encode(b) {
      DecodeEncode(b);
    }
  }

  /** The decoder accepts exactly the texts that are encodings. */
  lemma DecodableIffEncoding(s: seq<char>)
    ensures Decode(s).Some? <==> exists b :: Encode(b) == s
  {
    if Decode(s).Some? {
      EncodeDecode(s);
    }
    if exists b :: Encode(b) == s {
      var b :| Encode(b) == s;
      DecodeIffEncode(s, b);
    }
  }
}
