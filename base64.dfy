/** Base64 as defined in section 4 of RFC 4648: the standard alphabet, groups of
    three octets as four characters, and `=` padding on the last group. The
    decoder is the strict, canonical one: it accepts exactly the strings the
    encoder produces.

    The codec works in two layers: octets to six-bit values (with 64 standing
    for the pad character), and six-bit values to characters. */
module Base64 {
  import opened Wrappers
  import opened Bytes

  /** The value that stands for the pad character `=`. */
  const Pad: nat := 64

  /** A six-bit value or the pad. */
  type Sextet = v: nat | v <= Pad

  /** Characters of the alphabet of Table 1 of RFC 4648, and the pad. */
  predicate IsBase64Char(c: char)
  {
    ('A' <= c <= 'Z') || ('a' <= c <= 'z') || ('0' <= c <= '9') || c == '+' || c == '/' || c == '='
  }

  /** The character that encodes `v`. */
  function CharOf(v: Sextet): (c: char)
    ensures IsBase64Char(c)
  {
    if v < 26 then ('A' as int + v) as char
    else if v < 52 then ('a' as int + (v - 26)) as char
    else if v < 62 then ('0' as int + (v - 52)) as char
    else if v == 62 then '+'
    else if v == 63 then '/'
    else '='
  }

  /** The value a character encodes. */
  function SextetOf(c: char): (v: Sextet)
    requires IsBase64Char(c)
    ensures CharOf(v) == c
  {
    if 'A' <= c <= 'Z' then c as int - 'A' as int
    else if 'a' <= c <= 'z' then c as int - 'a' as int + 26
    else if '0' <= c <= '9' then c as int - '0' as int + 52
    else if c == '+' then 62
    else if c == '/' then 63
    else Pad
  }

  lemma SextetOfCharOf(v: Sextet)
    ensures SextetOf(CharOf(v)) == v
  {
  }

  /** The characters of a sequence of values. */
  function Chars(vs: seq<Sextet>): (s: string)
    ensures |s| == |vs|
  {
    if vs == [] then [] else [CharOf(vs[0])] + Chars(vs[1..])
  }

  /** The values of a string, or None when it holds a character outside the
      alphabet and the pad. */
  function Sextets(s: string): (r: Option<seq<Sextet>>)
    ensures r.Some? ==> |r.value| == |s|
  {
    if s == [] then Some([])
    else if !IsBase64Char(s[0]) then None
    else
      match Sextets(s[1..])
      case None => None
      case Some(rest) => Some([SextetOf(s[0])] + rest)
  }

  lemma {:induction false} SextetsChars(vs: seq<Sextet>)
    ensures Sextets(Chars(vs)) == Some(vs)
  {
    if vs != [] {
      var s := Chars(vs);
      SextetOfCharOf(vs[0]);
      SextetsChars(vs[1..]);
      assert s[1..] == Chars(vs[1..]);
      assert vs == [vs[0]] + vs[1..];
    }
  }

  lemma {:induction false} CharsSextets(s: string)
    requires Sextets(s).Some?
    ensures Chars(Sextets(s).value) == s
  {
    if s != [] {
      CharsSextets(s[1..]);
      var vs := Sextets(s).value;
      assert vs[1..] == Sextets(s[1..]).value;
      assert s == [s[0]] + s[1..];
    }
  }

  // Octets and six-bit values.

  /** Three octets as four values. */
  function SplitGroup(b0: byte, b1: byte, b2: byte): seq<Sextet>
  {
    [b0 / 4, b0 % 4 * 16 + b1 / 16, b1 % 16 * 4 + b2 / 64, b2 % 64]
  }

  /** The values that encode `b`, four for every three octets, the last group
      padded. */
  function EncodeSextets(b: seq<byte>): (vs: seq<Sextet>)
    ensures |b| == 0 ==> |vs| == 0
    ensures 1 <= |b| <= 3 ==> |vs| == 4
    ensures |b| > 3 ==> |vs| > 4
    decreases |b|
  {
    if |b| == 0 then []
    else if |b| == 1 then [b[0] / 4, b[0] % 4 * 16, Pad, Pad]
    else if |b| == 2 then [b[0] / 4, b[0] % 4 * 16 + b[1] / 16, b[1] % 16 * 4, Pad]
    else SplitGroup(b[0], b[1], b[2]) + EncodeSextets(b[3..])
  }

  /** Four values without padding as three octets. */
  function JoinGroup(q: seq<Sextet>): Option<seq<byte>>
    requires |q| == 4
  {
    var v0: int, v1: int, v2: int, v3: int := q[0], q[1], q[2], q[3];
    if v0 < Pad && v1 < Pad && v2 < Pad && v3 < Pad then
      Some([v0 * 4 + v1 / 16, v1 % 16 * 16 + v2 / 4, v2 % 4 * 64 + v3])
    else None
  }

  /** The last group, which may end in one or two pads; the bits the padding
      leaves over must be zero. */
  function JoinLastGroup(q: seq<Sextet>): Option<seq<byte>>
    requires |q| == 4
  {
    var v0: int, v1: int, v2: int, v3: int := q[0], q[1], q[2], q[3];
    if JoinGroup(q).Some? then JoinGroup(q)
    else if v0 < Pad && v1 < Pad && v2 == Pad && v3 == Pad then
      if v1 % 16 == 0 then Some([v0 * 4 + v1 / 16]) else None
    else if v0 < Pad && v1 < Pad && v2 < Pad && v3 == Pad then
      if v2 % 4 == 0 then Some([v0 * 4 + v1 / 16, v1 % 16 * 16 + v2 / 4]) else None
    else None
  }

  /** The octets a sequence of values encodes, or None. */
  function DecodeSextets(vs: seq<Sextet>): Option<seq<byte>>
    decreases |vs|
  {
    if |vs| == 0 then Some([])
    else if |vs| < 4 then None
    else if |vs| == 4 then JoinLastGroup(vs)
    else
      match JoinGroup(vs[..4])
      case None => None
      case Some(group) =>
        match DecodeSextets(vs[4..])
        case None => None
        case Some(rest) => Some(group + rest)
  }

  lemma Pack(hi: nat, lo: nat, m: nat)
    requires m == 4 || m == 16 || m == 64
    requires lo < m
    ensures (hi * m + lo) / m == hi && (hi * m + lo) % m == lo
  {
  }

  /** Splitting three octets and joining the values again is the identity. */
  lemma JoinSplit(b0: byte, b1: byte, b2: byte)
    ensures JoinGroup(SplitGroup(b0, b1, b2)) == Some([b0, b1, b2])
  {
    Pack(b0 % 4, b1 / 16, 16);
    Pack(b1 % 16, b2 / 64, 4);
  }

  /** Joining four values and splitting the octets again is the identity. */
  lemma SplitJoin(q: seq<Sextet>)
    requires |q| == 4 && JoinGroup(q).Some?
    ensures var g := JoinGroup(q).value; SplitGroup(g[0], g[1], g[2]) == q
  {
    Pack(q[0], q[1] / 16, 4);
    Pack(q[1] % 16, q[2] / 4, 16);
    Pack(q[2] % 4, q[3], 64);
  }

  lemma DecodeEncodeOne(b0: byte)
    ensures DecodeSextets(EncodeSextets([b0])) == Some([b0])
  {
    Pack(b0 % 4, 0, 16);
  }

  lemma DecodeEncodeTwo(b0: byte, b1: byte)
    ensures DecodeSextets(EncodeSextets([b0, b1])) == Some([b0, b1])
  {
    Pack(b0 % 4, b1 / 16, 16);
    Pack(b1 % 16, 0, 4);
  }

  lemma DecodeEncodeThree(b0: byte, b1: byte, b2: byte)
    ensures DecodeSextets(EncodeSextets([b0, b1, b2])) == Some([b0, b1, b2])
  {
    var b := [b0, b1, b2];
    assert b[3..] == [];
    assert EncodeSextets(b) == SplitGroup(b0, b1, b2);
    JoinSplit(b0, b1, b2);
  }

  lemma ShortTwo(b: seq<byte>)
    requires |b| == 2
    ensures DecodeSextets(EncodeSextets(b)) == Some(b)
  {
    assert b == [b[0], b[1]];
    DecodeEncodeTwo(b[0], b[1]);
  }

  lemma ShortThree(b: seq<byte>)
    requires |b| == 3
    ensures DecodeSextets(EncodeSextets(b)) == Some(b)
  {
    assert b == [b[0], b[1], b[2]];
    DecodeEncodeThree(b[0], b[1], b[2]);
  }

  lemma DecodeEncodeShort(b: seq<byte>)
    requires 1 <= |b| <= 3
    ensures DecodeSextets(EncodeSextets(b)) == Some(b)
  {
    if |b| == 1 {
      assert b == [b[0]];
      DecodeEncodeOne(b[0]);
    } else if |b| == 2 {
      ShortTwo(b);
    } else {
      ShortThree(b);
    }
  }

  /** A full group in front of a non-empty decodable sequence. */
  lemma DecodeConcat(q: seq<Sextet>, t: seq<Sextet>)
    requires |q| == 4 && |t| > 0
    requires JoinGroup(q).Some? && DecodeSextets(t).Some?
    ensures DecodeSextets(q + t) == Some(JoinGroup(q).value + DecodeSextets(t).value)
  {
    var s := q + t;
    assert s[..4] == q && s[4..] == t;
  }

  lemma {:induction false} DecodeEncodeSextets(b: seq<byte>)
    ensures DecodeSextets(EncodeSextets(b)) == Some(b)
    decreases |b|
  {
    if |b| == 0 {
    } else if |b| <= 3 {
      DecodeEncodeShort(b);
    } else {
      DecodeEncodeSextets(b[3..]);
      JoinSplit(b[0], b[1], b[2]);
      DecodeConcat(SplitGroup(b[0], b[1], b[2]), EncodeSextets(b[3..]));
      assert b == [b[0], b[1], b[2]] + b[3..];
    }
  }

  lemma EncodeDecodeLast(q: seq<Sextet>)
    requires |q| == 4 && JoinLastGroup(q).Some?
    ensures EncodeSextets(JoinLastGroup(q).value) == q
  {
    if JoinGroup(q).Some? {
      SplitJoin(q);
      var g := JoinGroup(q).value;
      assert g[3..] == [];
    } else if q[2] == Pad {
      Pack(q[0], q[1] / 16, 4);
    } else {
      Pack(q[0], q[1] / 16, 4);
      Pack(q[1] % 16, q[2] / 4, 16);
    }
  }

  lemma {:induction false} EncodeDecodeSextets(vs: seq<Sextet>)
    requires DecodeSextets(vs).Some?
    ensures EncodeSextets(DecodeSextets(vs).value) == vs
    decreases |vs|
  {
    if |vs| == 0 {
    } else if |vs| == 4 {
      EncodeDecodeLast(vs);
    } else {
      var group := JoinGroup(vs[..4]).value;
      var rest := DecodeSextets(vs[4..]).value;
      EncodeDecodeSextets(vs[4..]);
      SplitJoin(vs[..4]);
      var b := group + rest;
      assert |rest| > 0;
      assert b[3..] == rest;
      assert vs == vs[..4] + vs[4..];
    }
  }

  // The codec on strings.

  /** The encoding of `b`. */
  function Encode(b: seq<byte>): string
  {
    Chars(EncodeSextets(b))
  }

  /** The octets `s` encodes, or None when `s` is not a canonical encoding
      (a character outside the alphabet, a length that is not a multiple of
      four, misplaced padding or non-zero padding bits). */
  function Decode(s: string): Option<seq<byte>>
  {
    match Sextets(s)
    case None => None
    case Some(vs) => DecodeSextets(vs)
  }

  /** Decoding undoes encoding. */
  lemma DecodeEncode(b: seq<byte>)
    ensures Decode(Encode(b)) == Some(b)
  {
    SextetsChars(EncodeSextets(b));
    DecodeEncodeSextets(b);
  }

  /** Decoding succeeds only on the encoding of what it returns, so every
      octet string has exactly one encoding. */
  lemma EncodeDecode(s: string)
    requires Decode(s).Some?
    ensures Encode(Decode(s).value) == s
  {
    var vs := Sextets(s).value;
    CharsSextets(s);
    EncodeDecodeSextets(vs);
  }

  /** An encoding holds no space. */
  lemma {:induction false} CharsHaveNoSpace(vs: seq<Sextet>)
    ensures ' ' !in Chars(vs)
  {
    if vs != [] {
      CharsHaveNoSpace(vs[1..]);
    }
  }
}
