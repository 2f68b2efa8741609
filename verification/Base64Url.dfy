/** Unpadded base64url (section 5 of RFC 4648), as the `URL_SAFE_NO_PAD` engine of the `base64`
    crate runs it: padding is refused, and so are non-zero bits after the last whole byte. */
module Base64Url {
  import opened Bytes

  type sextet = v: int | 0 <= v < 64

  function CharOf(v: sextet): (c: byte) {
    if v < 26 then 65 + v
    else if v < 52 then 71 + v
    else if v < 62 then v - 4
    else if v == 62 then 45
    else 95
  }

  function ValueOf(c: byte): (v: Option<int>)
    ensures v.Some? ==> 0 <= v.value < 64
  {
    if 65 <= c <= 90 then Some(c - 65)
    else if 97 <= c <= 122 then Some(c - 71)
    else if 48 <= c <= 57 then Some(c + 4)
    else if c == 45 then Some(62)
    else if c == 95 then Some(63)
    else None
  }

  lemma CharValueInverse(v: sextet, c: byte)
    ensures ValueOf(CharOf(v)) == Some(v)
    ensures ValueOf(c) == Some(v) ==> c == CharOf(v)
    ensures IsGraphic(CharOf(v))
  {
  }

  /** The digits are the URL-safe alphabet of table 2 of RFC 4648, in its order: each range of the table
      runs upwards from its first letter. */
  lemma Alphabet(v: sextet)
    ensures CharOf(0) == 'A' as int && CharOf(26) == 'a' as int && CharOf(52) == '0' as int
    ensures CharOf(62) == '-' as int && CharOf(63) == '_' as int
    ensures v !in {0, 26, 52, 62, 63} ==> CharOf(v) == CharOf(v - 1) + 1
  {
  }

  function Encode(b: bytes): bytes {
    if |b| == 0 then []
    else if |b| == 1 then
      [CharOf(b[0] / 4), CharOf(b[0] % 4 * 16)]
    else if |b| == 2 then
      [CharOf(b[0] / 4), CharOf(b[0] % 4 * 16 + b[1] / 16), CharOf(b[1] % 16 * 4)]
    else
      EncodeGroup(b[0], b[1], b[2]) + Encode(b[3..])
  }

  function EncodeGroup(x: byte, y: byte, z: byte): (r: bytes)
    ensures |r| == 4
  {
    [CharOf(x / 4), CharOf(x % 4 * 16 + y / 16), CharOf(y % 16 * 4 + z / 64), CharOf(z % 64)]
  }

  function DecodeGroup(p: byte, q: byte, r: byte, s: byte): (d: Option<bytes>)
    ensures d.Some? ==> |d.value| == 3
  {
    var a, b, c, e := ValueOf(p), ValueOf(q), ValueOf(r), ValueOf(s);
    if a.None? || b.None? || c.None? || e.None? then None
    else Some([a.value * 4 + b.value / 16, b.value % 16 * 16 + c.value / 4, c.value % 4 * 64 + e.value])
  }

  function DecodeTail(s: bytes): Option<bytes>
    requires |s| < 4
  {
    if |s| == 0 then Some([])
    else if |s| == 1 then None
    else
      var a, b := ValueOf(s[0]), ValueOf(s[1]);
      if a.None? || b.None? then None
      else if |s| == 2 then
        if b.value % 16 != 0 then None else Some([a.value * 4 + b.value / 16])
      else
        var c := ValueOf(s[2]);
        if c.None? || c.value % 4 != 0 then None
        else Some([a.value * 4 + b.value / 16, b.value % 16 * 16 + c.value / 4])
  }

  function Decode(s: bytes): Option<bytes> {
    if |s| < 4 then DecodeTail(s)
    else
      var g, t := DecodeGroup(s[0], s[1], s[2], s[3]), Decode(s[4..]);
      if g.None? || t.None? then None else Some(g.value + t.value)
  }

  // ---------------------------------------------------------------- round trips

  lemma SextetsOfThree(x: byte, y: byte, z: byte)
    ensures var b, c := x % 4 * 16 + y / 16, y % 16 * 4 + z / 64;
            x / 4 * 4 + b / 16 == x && b % 16 * 16 + c / 4 == y && c % 4 * 64 + z % 64 == z
  {
  }

  lemma GroupRoundTrip(x: byte, y: byte, z: byte)
    ensures var g := EncodeGroup(x, y, z);
            DecodeGroup(g[0], g[1], g[2], g[3]) == Some([x, y, z])
  {
    var a, b, c, e := x / 4, x % 4 * 16 + y / 16, y % 16 * 4 + z / 64, z % 64;
    SextetsOfThree(x, y, z);
    CharValueInverse(a, 0);
    CharValueInverse(b, 0);
    CharValueInverse(c, 0);
    CharValueInverse(e, 0);
    assert DecodeGroup(CharOf(a), CharOf(b), CharOf(c), CharOf(e))
        == Some([a * 4 + b / 16, b % 16 * 16 + c / 4, c % 4 * 64 + e]);
  }

  lemma BytesOfFour(a: sextet, b: sextet, c: sextet, e: sextet)
    ensures var x: int, y: int, z: int := a * 4 + b / 16, b % 16 * 16 + c / 4, c % 4 * 64 + e;
            && 0 <= x < 256 && 0 <= y < 256 && 0 <= z < 256
            && x / 4 == a && x % 4 * 16 + y / 16 == b && y % 16 * 4 + z / 64 == c && z % 64 == e
  {
    var x: int, y: int, z: int := a * 4 + b / 16, b % 16 * 16 + c / 4, c % 4 * 64 + e;
    assert x / 4 == a && x % 4 == b / 16;
    assert y / 16 == b % 16 && y % 16 == c / 4;
    assert z / 64 == c % 4 && z % 64 == e;
  }

  lemma GroupCanonical(p: byte, q: byte, r: byte, s: byte)
    requires DecodeGroup(p, q, r, s).Some?
    ensures var d := DecodeGroup(p, q, r, s).value;
            EncodeGroup(d[0], d[1], d[2]) == [p, q, r, s]
  {
    var a, b, c, e := ValueOf(p).value, ValueOf(q).value, ValueOf(r).value, ValueOf(s).value;
    BytesOfFour(a, b, c, e);
    CharValueInverse(a, p);
    CharValueInverse(b, q);
    CharValueInverse(c, r);
    CharValueInverse(e, s);
    var x: byte, y: byte, z: byte := a * 4 + b / 16, b % 16 * 16 + c / 4, c % 4 * 64 + e;
    assert DecodeGroup(p, q, r, s) == Some([x, y, z]);
    assert EncodeGroup(x, y, z) == [CharOf(a), CharOf(b), CharOf(c), CharOf(e)];
  }

  lemma SextetsOfOne(x: byte)
    ensures x / 4 * 4 + x % 4 * 16 / 16 == x && x % 4 * 16 % 16 == 0
  {
  }

  lemma SextetsOfTwo(x: byte, y: byte)
    ensures var b, c := x % 4 * 16 + y / 16, y % 16 * 4;
            x / 4 * 4 + b / 16 == x && b % 16 * 16 + c / 4 == y && c % 4 == 0
  {
  }

  lemma OneRoundTrip(x: byte)
    ensures DecodeTail([CharOf(x / 4), CharOf(x % 4 * 16)]) == Some([x])
  {
    SextetsOfOne(x);
    CharValueInverse(x / 4, 0);
    CharValueInverse(x % 4 * 16, 0);
  }

  lemma TwoRoundTrip(x: byte, y: byte)
    ensures DecodeTail([CharOf(x / 4), CharOf(x % 4 * 16 + y / 16), CharOf(y % 16 * 4)]) == Some([x, y])
  {
    var p, q, r := x / 4, x % 4 * 16 + y / 16, y % 16 * 4;
    SextetsOfTwo(x, y);
    CharValueInverse(p, 0);
    CharValueInverse(q, 0);
    CharValueInverse(r, 0);
    assert DecodeTail([CharOf(p), CharOf(q), CharOf(r)]) == Some([p * 4 + q / 16, q % 16 * 16 + r / 4]);
  }

  lemma TailRoundTrip(b: bytes)
    requires |b| < 3
    ensures |Encode(b)| < 4 && DecodeTail(Encode(b)) == Some(b)
  {
    if |b| == 1 {
      OneRoundTrip(b[0]);
      assert b == [b[0]];
    } else if |b| == 2 {
      TwoRoundTrip(b[0], b[1]);
      assert b == [b[0], b[1]];
    }
  }

  lemma BytesOfTwo(a: sextet, b: sextet)
    requires b % 16 == 0
    ensures var x: int := a * 4 + b / 16;
            0 <= x < 256 && x / 4 == a && x % 4 * 16 == b
  {
  }

  lemma BytesOfThree(a: sextet, b: sextet, c: sextet)
    requires c % 4 == 0
    ensures var x: int, y: int := a * 4 + b / 16, b % 16 * 16 + c / 4;
            && 0 <= x < 256 && 0 <= y < 256
            && x / 4 == a && x % 4 * 16 + y / 16 == b && y % 16 * 4 == c
  {
    var x: int, y: int := a * 4 + b / 16, b % 16 * 16 + c / 4;
    assert x / 4 == a && x % 4 == b / 16;
    assert y / 16 == b % 16 && y % 16 == c / 4;
  }

  lemma OneCanonical(p: byte, q: byte)
    requires DecodeTail([p, q]).Some?
    ensures Encode(DecodeTail([p, q]).value) == [p, q]
  {
    var a, b := ValueOf(p).value, ValueOf(q).value;
    BytesOfTwo(a, b);
    CharValueInverse(a, p);
    CharValueInverse(b, q);
    var x: byte := a * 4 + b / 16;
    assert DecodeTail([p, q]) == Some([x]);
    assert Encode([x]) == [CharOf(a), CharOf(b)];
  }

  lemma TwoCanonical(p: byte, q: byte, r: byte)
    requires DecodeTail([p, q, r]).Some?
    ensures Encode(DecodeTail([p, q, r]).value) == [p, q, r]
  {
    var a, b, c := ValueOf(p).value, ValueOf(q).value, ValueOf(r).value;
    BytesOfThree(a, b, c);
    CharValueInverse(a, p);
    CharValueInverse(b, q);
    CharValueInverse(c, r);
    var x: byte, y: byte := a * 4 + b / 16, b % 16 * 16 + c / 4;
    assert DecodeTail([p, q, r]) == Some([x, y]);
    assert Encode([x, y]) == [CharOf(a), CharOf(b), CharOf(c)];
  }

  lemma TailCanonical(s: bytes)
    requires |s| < 4 && DecodeTail(s).Some?
    ensures Encode(DecodeTail(s).value) == s
  {
    if |s| == 2 {
      assert s == [s[0], s[1]];
      OneCanonical(s[0], s[1]);
    } else if |s| == 3 {
      assert s == [s[0], s[1], s[2]];
      TwoCanonical(s[0], s[1], s[2]);
    }
  }

  /** Decoding undoes encoding, for every byte string. */
  lemma {:induction false} DecodeEncode(b: bytes)
    ensures Decode(Encode(b)) == Some(b)
  {
    if |b| < 3 {
      TailRoundTrip(b);
    } else {
      GroupRoundTrip(b[0], b[1], b[2]);
      DecodeEncode(b[3..]);
      assert Encode(b)[4..] == Encode(b[3..]);
      assert b == [b[0], b[1], b[2]] + b[3..];
    }
  }

  /** Only the canonical text of a byte string decodes to it: no padding, no stray trailing bits,
      no foreign alphabet. */
  lemma {:induction false} DecodeCanonical(s: bytes)
    requires Decode(s).Some?
    ensures Encode(Decode(s).value) == s
  {
    if |s| < 4 {
      TailCanonical(s);
    } else {
      var g, t := DecodeGroup(s[0], s[1], s[2], s[3]).value, Decode(s[4..]).value;
      GroupCanonical(s[0], s[1], s[2], s[3]);
      DecodeCanonical(s[4..]);
      assert (g + t)[3..] == t;
      assert s == [s[0], s[1], s[2], s[3]] + s[4..];
    }
  }

  /** The decoder accepts exactly the encoder's image. */
  lemma DecodeIffEncoded(s: bytes, b: bytes)
    ensures Decode(s) == Some(b) <==> s == Encode(b)
  {
    DecodeEncode(b);
    if Decode(s) == Some(b) {
      DecodeCanonical(s);
    }
  }

  lemma {:induction false} EncodeIsGraphic(b: bytes)
    ensures forall i | 0 <= i < |Encode(b)| :: IsGraphic(Encode(b)[i]) && ValueOf(Encode(b)[i]).Some?
  {
    if |b| >= 3 {
      EncodeIsGraphic(b[3..]);
    }
  }

  // ---------------------------------------------------------------- digit by digit

  /** What digit `k` of the text stands for, and 0 beyond its end. */
  function DigitAt(s: bytes, k: nat): int {
    if k < |s| then ValueOf(s[k]).GetOr(-1) else 0
  }

  function ByteAt(b: bytes, k: nat): int {
    if k < |b| then b[k] else 0
  }

  /** Four digits are the 24 bits of three bytes, the most significant first. */
  predicate SameBits(p: int, q: int, r: int, s: int, x: int, y: int, z: int) {
    && 0 <= p < 64 && 0 <= q < 64 && 0 <= r < 64 && 0 <= s < 64
    && p * 0x40000 + q * 0x1000 + r * 0x40 + s == x * 0x10000 + y * 0x100 + z
  }

  /** Group `g` of the text against group `g` of the bytes; what is missing of either counts as zero. */
  predicate GroupIs(b: bytes, s: bytes, g: nat) {
    SameBits(DigitAt(s, 4 * g), DigitAt(s, 4 * g + 1), DigitAt(s, 4 * g + 2), DigitAt(s, 4 * g + 3),
             ByteAt(b, 3 * g), ByteAt(b, 3 * g + 1), ByteAt(b, 3 * g + 2))
  }

  lemma BitsOfThree(x: int, y: int, z: int)
    requires 0 <= x < 256 && 0 <= y < 256 && 0 <= z < 256
    ensures SameBits(x / 4, x % 4 * 16 + y / 16, y % 16 * 4 + z / 64, z % 64, x, y, z)
  {
    assert x == x / 4 * 4 + x % 4 && y == y / 16 * 16 + y % 16 && z == z / 64 * 64 + z % 64;
  }

  lemma DigitIs(s: bytes, k: nat, v: sextet)
    requires k < |s| && s[k] == CharOf(v)
    ensures DigitAt(s, k) == v
  {
    CharValueInverse(v, 0);
  }

  lemma FirstGroup(b: bytes)
    requires b != []
    ensures GroupIs(b, Encode(b), 0)
  {
    var s := Encode(b);
    var x, y, z := ByteAt(b, 0), ByteAt(b, 1), ByteAt(b, 2);
    BitsOfThree(x, y, z);
    DigitIs(s, 0, x / 4);
    DigitIs(s, 1, x % 4 * 16 + y / 16);
    if |b| >= 2 {
      DigitIs(s, 2, y % 16 * 4 + z / 64);
    }
    if |b| >= 3 {
      DigitIs(s, 3, z % 64);
    }
  }

  lemma GroupMoves(b: bytes, s: bytes, d: bytes, t: bytes, g: nat)
    requires |b| >= 3 && |s| >= 4 && d == b[3..] && t == s[4..] && g > 0 && GroupIs(d, t, g - 1)
    ensures GroupIs(b, s, g)
  {
    var i, k := 4 * (g - 1), 3 * (g - 1);
    assert DigitAt(s, 4 * g) == DigitAt(t, i) && DigitAt(s, 4 * g + 1) == DigitAt(t, i + 1);
    assert DigitAt(s, 4 * g + 2) == DigitAt(t, i + 2) && DigitAt(s, 4 * g + 3) == DigitAt(t, i + 3);
    assert ByteAt(b, 3 * g) == ByteAt(d, k) && ByteAt(b, 3 * g + 1) == ByteAt(d, k + 1);
    assert ByteAt(b, 3 * g + 2) == ByteAt(d, k + 2);
  }

  lemma EncodeTail(b: bytes)
    requires |b| >= 3
    ensures |Encode(b)| >= 4 && Encode(b)[4..] == Encode(b[3..])
  {
    Append(EncodeGroup(b[0], b[1], b[2]), Encode(b[3..]));
  }

  lemma BeyondEnd(b: bytes, s: bytes, g: nat)
    requires |b| <= 3 * g && |s| <= 4 * g
    ensures GroupIs(b, s, g)
  {
  }

  /** The text of `b` has the digits of its bits, six at a time, and no more of them than it needs. */
  lemma {:induction false} EncodeSpells(b: bytes, g: nat)
    ensures |Encode(b)| == (4 * |b| + 2) / 3
    ensures GroupIs(b, Encode(b), g)
    decreases |b|
  {
    if |b| >= 3 {
      EncodeSpells(b[3..], if g > 0 then g - 1 else 0);
      EncodeTail(b);
      if g > 0 {
        GroupMoves(b, Encode(b), b[3..], Encode(b[3..]), g);
      } else {
        FirstGroup(b);
      }
    } else if b != [] && g == 0 {
      FirstGroup(b);
    } else {
      BeyondEnd(b, Encode(b), g);
    }
  }
}
