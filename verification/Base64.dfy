/** Standard Base64 with padding (section 4 of RFC 4648), as the `STANDARD` engine of the base64
    crate implements it: the decoder accepts canonical encodings only. */
module Base64 {
  import opened Wrappers

  type byte = x: int | 0 <= x < 256

  type sextet = x: int | 0 <= x < 64

  const PAD: char := '='

  // ---- The alphabet of table 1 --------------------------------------------

  function Symbol(v: sextet): (c: char)
    ensures c != PAD
  {
    if v < 26 then 'A' + v as char
    else if v < 52 then 'a' + (v - 26) as char
    else if v < 62 then '0' + (v - 52) as char
    else if v == 62 then '+' else '/'
  }

  function Value(c: char): (r: Option<sextet>)
    ensures r.Some? ==> Symbol(r.value) == c
  {
    if 'A' <= c <= 'Z' then Some(c as int - 'A' as int)
    else if 'a' <= c <= 'z' then Some(c as int - 'a' as int + 26)
    else if '0' <= c <= '9' then Some(c as int - '0' as int + 52)
    else if c == '+' then Some(62)
    else if c == '/' then Some(63)
    else None
  }

  lemma ValueOfSymbol(v: sextet)
    ensures Value(Symbol(v)) == Some(v)
  {
  }

  // ---- Repacking 24 bits: three bytes against four sextets -----------------

  function First(x: byte): sextet { x / 4 }
  function Second(x: byte, y: byte): sextet { x % 4 * 16 + y / 16 }
  function Third(y: byte, z: byte): sextet { y % 16 * 4 + z / 64 }
  function Fourth(z: byte): sextet { z % 64 }

  function High(v0: sextet, v1: sextet): byte { v0 * 4 + v1 / 16 }
  function Middle(v1: sextet, v2: sextet): byte { v1 % 16 * 16 + v2 / 4 }
  function Low(v2: sextet, v3: sextet): byte { v2 % 4 * 64 + v3 }

  function EncodeGroup(x: byte, y: byte, z: byte): (s: string)
    ensures |s| == 4
  {
    [Symbol(First(x)), Symbol(Second(x, y)), Symbol(Third(y, z)), Symbol(Fourth(z))]
  }

  function Encode(b: seq<byte>): (s: string)
    ensures |s| % 4 == 0 && (b == [] <==> s == "")
  {
    if |b| == 0 then ""
    else if |b| == 1 then [Symbol(First(b[0])), Symbol(Second(b[0], 0)), PAD, PAD]
    else if |b| == 2 then [Symbol(First(b[0])), Symbol(Second(b[0], b[1])), Symbol(Third(b[1], 0)), PAD]
    else EncodeGroup(b[0], b[1], b[2]) + Encode(b[3..])
  }

  /** Decodes one group of four symbols without padding. */
  function DecodeGroup(s: string): (r: Option<seq<byte>>)
    requires |s| == 4
    ensures r.Some? ==> |r.value| == 3
  {
    var v0, v1, v2, v3 := Value(s[0]), Value(s[1]), Value(s[2]), Value(s[3]);
    if v0.None? || v1.None? || v2.None? || v3.None? then None
    else Some([High(v0.value, v1.value), Middle(v1.value, v2.value), Low(v2.value, v3.value)])
  }

  /** Decodes the last group, which may be padded; leftover bits must be zero. */
  function DecodeLast(s: string): (r: Option<seq<byte>>)
    requires |s| == 4
    ensures r.Some? ==> 1 <= |r.value| <= 3
  {
    var v0, v1, v2 := Value(s[0]), Value(s[1]), Value(s[2]);
    if s[3] != PAD then DecodeGroup(s)
    else if v0.None? || v1.None? then None
    else if s[2] == PAD then
      if v1.value % 16 == 0 then Some([High(v0.value, v1.value)]) else None
    else if v2.None? || v2.value % 4 != 0 then None
    else Some([High(v0.value, v1.value), Middle(v1.value, v2.value)])
  }

  function Decode(s: string): Option<seq<byte>> {
    if s == "" then Some([])
    else if |s| < 4 then None
    else if |s| == 4 then DecodeLast(s)
    else
      var head, tail := DecodeGroup(s[..4]), Decode(s[4..]);
      if head.None? || tail.None? then None else Some(head.value + tail.value)
  }

  // ---- Both round trips ----------------------------------------------------

  lemma Unpack(x: byte, y: byte, z: byte)
    ensures High(First(x), Second(x, y)) == x
    ensures Middle(Second(x, y), Third(y, z)) == y
    ensures Low(Third(y, z), Fourth(z)) == z
  {
  }

  lemma Repack(v0: sextet, v1: sextet, v2: sextet, v3: sextet)
    ensures First(High(v0, v1)) == v0
    ensures Second(High(v0, v1), Middle(v1, v2)) == v1
    ensures Third(Middle(v1, v2), Low(v2, v3)) == v2
    ensures Fourth(Low(v2, v3)) == v3
  {
  }

  lemma GroupRoundTrip(x: byte, y: byte, z: byte)
    ensures DecodeGroup(EncodeGroup(x, y, z)) == Some([x, y, z])
  {
    ValueOfSymbol(First(x));
    ValueOfSymbol(Second(x, y));
    ValueOfSymbol(Third(y, z));
    ValueOfSymbol(Fourth(z));
    Unpack(x, y, z);
  }

  lemma NoLeftoverBits(x: byte)
    ensures Second(x, 0) % 16 == 0 && High(First(x), Second(x, 0)) == x
    ensures Third(x, 0) % 4 == 0
  {
  }

  lemma OneByteRoundTrip(x: byte)
    ensures DecodeLast([Symbol(First(x)), Symbol(Second(x, 0)), PAD, PAD]) == Some([x])
  {
    hide Symbol, Value, First, Second, High;
    NoLeftoverBits(x);
    ValueOfSymbol(First(x));
    ValueOfSymbol(Second(x, 0));
  }

  lemma TwoBytesRoundTrip(x: byte, y: byte)
    ensures DecodeLast([Symbol(First(x)), Symbol(Second(x, y)), Symbol(Third(y, 0)), PAD]) == Some([x, y])
  {
    ValueOfSymbol(First(x));
    ValueOfSymbol(Second(x, y));
    ValueOfSymbol(Third(y, 0));
    NoLeftoverBits(y);
    Unpack(x, y, 0);
  }

  /** Decoding gives back the encoded bytes. */
  lemma {:induction false} DecodeOfEncode(b: seq<byte>)
    ensures Decode(Encode(b)) == Some(b)
  {
    hide Symbol, Value, First, Second, Third, Fourth, High, Middle, Low;
    if |b| == 1 {
      OneByteRoundTrip(b[0]);
      assert b == [b[0]];
    } else if |b| == 2 {
      TwoBytesRoundTrip(b[0], b[1]);
      assert b == [b[0], b[1]];
    } else if |b| >= 3 {
      DecodeOfEncode(b[3..]);
      GroupRoundTrip(b[0], b[1], b[2]);
      DecodeOfGroupAnd(b[0], b[1], b[2], Encode(b[3..]));
      assert b == [b[0], b[1], b[2]] + b[3..];
    }
  }

  lemma DecodeOfGroupAnd(x: byte, y: byte, z: byte, rest: string)
    requires Decode(rest).Some?
    requires DecodeGroup(EncodeGroup(x, y, z)) == Some([x, y, z])
    ensures Decode(EncodeGroup(x, y, z) + rest) == Some([x, y, z] + Decode(rest).value)
  {
    var s := EncodeGroup(x, y, z) + rest;
    assert s[..4] == EncodeGroup(x, y, z) && s[4..] == rest;
    if rest == "" {
      assert s == EncodeGroup(x, y, z);
      assert [x, y, z] + Decode(rest).value == [x, y, z];
    }
  }

  lemma GroupBack(s: string)
    requires |s| == 4 && DecodeGroup(s).Some?
    ensures var b := DecodeGroup(s).value; EncodeGroup(b[0], b[1], b[2]) == s
  {
    Repack(Value(s[0]).value, Value(s[1]).value, Value(s[2]).value, Value(s[3]).value);
    assert s == [s[0], s[1], s[2], s[3]];
  }

  lemma LastBack(s: string)
    requires |s| == 4 && DecodeLast(s).Some?
    ensures Encode(DecodeLast(s).value) == s
  {
    assert s == [s[0], s[1], s[2], s[3]];
    if s[3] != PAD {
      GroupBack(s);
      EncodeOfThree(DecodeLast(s).value);
    } else if s[2] == PAD {
      OneByteBack(Value(s[0]).value, Value(s[1]).value);
    } else {
      TwoBytesBack(Value(s[0]).value, Value(s[1]).value, Value(s[2]).value);
    }
  }

  lemma EncodeOfThree(b: seq<byte>)
    requires |b| == 3
    ensures Encode(b) == EncodeGroup(b[0], b[1], b[2])
  {
    assert b[3..] == [];
  }

  lemma OneByteBack(v0: sextet, v1: sextet)
    requires v1 % 16 == 0
    ensures Encode([High(v0, v1)]) == [Symbol(v0), Symbol(v1), PAD, PAD]
  {
    Repack(v0, v1, 0, 0);
  }

  lemma TwoBytesBack(v0: sextet, v1: sextet, v2: sextet)
    requires v2 % 4 == 0
    ensures Encode([High(v0, v1), Middle(v1, v2)]) == [Symbol(v0), Symbol(v1), Symbol(v2), PAD]
  {
    Repack(v0, v1, v2, 0);
  }

  /** Only canonical text decodes: what the decoder accepts is the encoding of its result. */
  lemma {:induction false} EncodeOfDecode(s: string)
    requires Decode(s).Some?
    ensures Encode(Decode(s).value) == s
  {
    if |s| == 4 {
      LastBack(s);
    } else if |s| > 4 {
      var head, tail := DecodeGroup(s[..4]).value, Decode(s[4..]).value;
      EncodeOfDecode(s[4..]);
      GroupBack(s[..4]);
      assert (head + tail)[3..] == tail;
      assert s == s[..4] + s[4..];
    }
  }

  /** An encoding contains only alphabet symbols and padding. */
  lemma {:induction false} EncodingAlphabet(b: seq<byte>, c: char)
    requires Value(c).None? && c != PAD
    ensures c !in Encode(b)
  {
    forall v: sextet ensures Symbol(v) != c { ValueOfSymbol(v); }
    if |b| >= 3 {
      EncodingAlphabet(b[3..], c);
    }
  }

  // ---- The encoding of RFC 4648 --------------------------------------------

  /** Table 1: the capitals, the small letters, the digits, and two more. */
  lemma AlphabetIsTable1(v: sextet)
    ensures v < 26 ==> Symbol(v) == "ABCDEFGHIJKLMNOPQRSTUVWXYZ"[v]
    ensures 26 <= v < 52 ==> Symbol(v) == "abcdefghijklmnopqrstuvwxyz"[v - 26]
    ensures 52 <= v < 62 ==> Symbol(v) == "0123456789"[v - 52]
    ensures Symbol(62) == '+' && Symbol(63) == '/'
  {
    hide Symbol;
    Capitals(v);
    SmallLetters(v);
    Digits(v);
  }

  lemma Capitals(v: sextet)
    ensures v < 26 ==> Symbol(v) == "ABCDEFGHIJKLMNOPQRSTUVWXYZ"[v]
  {
  }

  lemma SmallLetters(v: sextet)
    ensures 26 <= v < 52 ==> Symbol(v) == "abcdefghijklmnopqrstuvwxyz"[v - 26]
  {
  }

  lemma Digits(v: sextet)
    ensures 52 <= v < 62 ==> Symbol(v) == "0123456789"[v - 52]
    ensures Symbol(62) == '+' && Symbol(63) == '/'
  {
  }

  /** A group of three bytes, the first of them highest, is the number that its sextets are. */
  lemma GroupIsOneNumber(x: byte, y: byte, z: byte)
    ensures ((First(x) * 64 + Second(x, y)) * 64 + Third(y, z)) * 64 + Fourth(z) == (x * 256 + y) * 256 + z
  {
  }

  /** The text is that of the groups, in order; a short last group is filled with zeros, of which
      only padding is seen. */
  lemma EncodingIsByGroups(x: byte, y: byte, z: byte, rest: seq<byte>)
    ensures Encode([x, y, z] + rest)
            == [Symbol(First(x)), Symbol(Second(x, y)), Symbol(Third(y, z)), Symbol(Fourth(z))] + Encode(rest)
    ensures Encode([x, y]) == [Symbol(First(x)), Symbol(Second(x, y)), Symbol(Third(y, 0)), '=']
    ensures Encode([x]) == [Symbol(First(x)), Symbol(Second(x, 0)), '=', '=']
  {
    assert ([x, y, z] + rest)[3..] == rest;
  }
}
