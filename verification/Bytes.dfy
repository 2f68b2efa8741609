/** Byte strings, and the few text operations the other modules share.

    A Rust `String` is modelled by the bytes of its UTF-8 form, so one type serves for text and for
    wire data.  Nothing here depends on a string being valid UTF-8. */
module Bytes {
  type byte = b: int | 0 <= b < 256
  type bytes = seq<byte>

  datatype Option<+T> = None | Some(value: T) {
    function GetOr(default: T): T {
      if None? then default else value
    }
  }

  datatype Result<+T, +E> = Ok(value: T) | Err(error: E)

  const CR: byte := 13
  const LF: byte := 10
  const CRLF: bytes := [CR, LF]

  /** The bytes of an ASCII literal. */
  function Ascii(s: string): bytes {
    seq(|s|, i requires 0 <= i < |s| => (s[i] as int) % 256)
  }

  // ---------------------------------------------------------------- appending

  lemma Assoc<T>(a: seq<T>, b: seq<T>, c: seq<T>)
    ensures (a + b) + c == a + (b + c)
  {
  }

  lemma Append(a: bytes, b: bytes)
    ensures (a + b)[..|a|] == a && (a + b)[|a|..] == b
  {
  }

  lemma TakeAppend(a: bytes, b: bytes, k: nat)
    requires |a| <= k <= |a| + |b|
    ensures (a + b)[..k] == a + b[..k - |a|]
  {
  }

  lemma Cons(x: byte, s: bytes)
    ensures ([x] + s)[0] == x && ([x] + s)[1..] == s
  {
  }

  // ---------------------------------------------------------------- searching

  predicate OccursAt(s: bytes, pat: bytes, i: nat) {
    i + |pat| <= |s| && s[i..i + |pat|] == pat
  }

  predicate StartsWith(s: bytes, p: bytes) {
    |p| <= |s| && s[..|p|] == p
  }

  /** `s.windows(pat.len()).position(|w| w == pat)`, looking from index `from` on. */
  function PositionFrom(s: bytes, pat: bytes, from: nat): (r: Option<nat>)
    ensures r.Some? ==> from <= r.value && OccursAt(s, pat, r.value)
    ensures r.Some? ==> forall j | from <= j < r.value :: !OccursAt(s, pat, j)
    ensures r.None? ==> forall j | from <= j :: !OccursAt(s, pat, j)
    decreases |s| - from
  {
    if from + |pat| > |s| then None
    else if s[from..from + |pat|] == pat then Some(from)
    else PositionFrom(s, pat, from + 1)
  }

  /** The first index at which `pat` occurs in `s`. */
  function Position(s: bytes, pat: bytes): (r: Option<nat>)
    ensures r.Some? ==> OccursAt(s, pat, r.value) && forall j | 0 <= j < r.value :: !OccursAt(s, pat, j)
    ensures r.None? ==> forall j: nat :: !OccursAt(s, pat, j)
  {
    PositionFrom(s, pat, 0)
  }

  predicate Contains(s: bytes, pat: bytes) {
    Position(s, pat).Some?
  }

  lemma PositionIs(s: bytes, pat: bytes, k: nat)
    requires OccursAt(s, pat, k)
    requires forall j | 0 <= j < k :: !OccursAt(s, pat, j)
    ensures Position(s, pat) == Some(k)
  {
    var r := Position(s, pat);
    assert r.Some?;
    assert !(r.value < k) && !(k < r.value);
  }

  /** The first occurrence in a prefix is the first occurrence in the whole. */
  lemma PositionInPrefix(p: bytes, q: bytes, pat: bytes)
    requires p <= q
    requires Position(p, pat).Some?
    ensures Position(q, pat) == Position(p, pat)
  {
    var k := Position(p, pat).value;
    assert q[k..k + |pat|] == p[k..k + |pat|];
    forall j | 0 <= j < k ensures !OccursAt(q, pat, j) {
      assert !OccursAt(p, pat, j);
      assert q[j..j + |pat|] == p[j..j + |pat|];
    }
    PositionIs(q, pat, k);
  }

  // ---------------------------------------------------------------- whitespace

  predicate IsAsciiSpace(b: byte) {
    9 <= b <= 13 || b == 32
  }

  /** The two- and three-byte UTF-8 forms of Unicode's White_Space characters. */
  predicate IsSpace2(a: byte, b: byte) {
    a == 0xC2 && (b == 0x85 || b == 0xA0)
  }

  predicate IsSpace3(a: byte, b: byte, c: byte) {
    || (a == 0xE1 && b == 0x9A && c == 0x80)
    || (a == 0xE2 && b == 0x80 && (c <= 0x8A || c == 0xA8 || c == 0xA9 || c == 0xAF) && 0x80 <= c)
    || (a == 0xE2 && b == 0x81 && c == 0x9F)
    || (a == 0xE3 && b == 0x80 && c == 0x80)
  }

  /** Length of the whitespace character that `s` starts with, or 0. */
  function SpacePrefix(s: bytes): (n: nat)
    ensures n <= |s|
  {
    if |s| >= 1 && IsAsciiSpace(s[0]) then 1
    else if |s| >= 2 && IsSpace2(s[0], s[1]) then 2
    else if |s| >= 3 && IsSpace3(s[0], s[1], s[2]) then 3
    else 0
  }

  /** Length of the whitespace character that `s` ends with, or 0. */
  function SpaceSuffix(s: bytes): (n: nat)
    ensures n <= |s|
  {
    var k := |s|;
    if k >= 1 && IsAsciiSpace(s[k - 1]) then 1
    else if k >= 2 && IsSpace2(s[k - 2], s[k - 1]) then 2
    else if k >= 3 && IsSpace3(s[k - 3], s[k - 2], s[k - 1]) then 3
    else 0
  }

  function TrimStart(s: bytes): bytes {
    var n := SpacePrefix(s);
    if n == 0 then s else TrimStart(s[n..])
  }

  function TrimEnd(s: bytes): bytes {
    var n := SpaceSuffix(s);
    if n == 0 then s else TrimEnd(s[..|s| - n])
  }

  /** `str::trim`. */
  function Trim(s: bytes): bytes {
    TrimEnd(TrimStart(s))
  }

  /** `s` is a run of whitespace characters. */
  predicate IsWhitespace(s: bytes) {
    s == [] || (SpacePrefix(s) > 0 && IsWhitespace(s[SpacePrefix(s)..]))
  }

  /** A printing ASCII byte: no whitespace character contains one. */
  predicate IsGraphic(b: byte) {
    33 <= b <= 126
  }

  lemma {:induction false} TrimStartDropsWhitespace(w: bytes, s: bytes)
    requires IsWhitespace(w)
    ensures TrimStart(w + s) == TrimStart(s)
    decreases |w|
  {
    if w == [] {
      assert w + s == s;
    } else {
      var n := SpacePrefix(w);
      assert SpacePrefix(w + s) == n;
      assert (w + s)[n..] == w[n..] + s;
      TrimStartDropsWhitespace(w[n..], s);
    }
  }

  lemma {:induction false} TrimEndDropsWhitespace(s: bytes, w: bytes)
    requires IsWhitespace(w)
    ensures TrimEnd(s + w) == TrimEnd(s)
    decreases |w|
  {
    if w == [] {
      assert s + w == s;
    } else {
      var n := SpacePrefix(w);
      var c := w[..n];
      assert s + w == (s + c) + w[n..];
      TrimEndDropsWhitespace(s + c, w[n..]);
      assert SpaceSuffix(s + c) == n;
      assert (s + c)[..|s + c| - n] == s;
    }
  }

  /** Whitespace that follows is never read as the end of a character that starts before it. */
  lemma SpaceDoesNotMerge(s: bytes, after: bytes)
    requires s != [] && SpacePrefix(s) == 0 && IsWhitespace(after)
    ensures SpacePrefix(s + after) == 0
  {
    var t := s + after;
    assert t[0] == s[0];
    if |s| >= 2 {
      assert t[1] == s[1];
    }
    if |s| >= 3 {
      assert t[2] == s[2];
    }
    if after != [] {
      assert IsAsciiSpace(after[0]) || after[0] >= 0xC2;
      assert t[|s|] == after[0];
    }
  }

  /** Surrounding whitespace of any kind is removed, and nothing else, from any text that neither
      starts nor ends with whitespace. */
  lemma TrimSurrounded(before: bytes, s: bytes, after: bytes)
    requires IsWhitespace(before) && IsWhitespace(after)
    requires SpacePrefix(s) == 0 && SpaceSuffix(s) == 0
    ensures Trim(before + (s + after)) == s
  {
    TrimStartDropsWhitespace(before, s + after);
    if s == [] {
      assert s + after == after == after + [];
      TrimStartDropsWhitespace(after, []);
    } else {
      SpaceDoesNotMerge(s, after);
      TrimEndDropsWhitespace(s, after);
    }
  }

  // ---------------------------------------------------------------- positional numbers

  function Pow(base: nat, n: nat): nat {
    if n == 0 then 1 else base * Pow(base, n - 1)
  }

  /** What digits stand for, the most significant one first. */
  function PlaceValue(base: nat, digits: seq<nat>): nat {
    if digits == [] then 0 else digits[0] * Pow(base, |digits| - 1) + PlaceValue(base, digits[1..])
  }

  // ---------------------------------------------------------------- hexadecimal

  function HexDigit(v: int): byte
    requires 0 <= v < 16
  {
    if v < 10 then 48 + v else 87 + v
  }

  function HexValue(c: byte): (v: Option<int>)
    ensures v.Some? ==> 0 <= v.value < 16
  {
    if 48 <= c <= 57 then Some(c - 48)
    else if 97 <= c <= 102 then Some(c - 87)
    else if 65 <= c <= 70 then Some(c - 55)
    else None
  }

  /** `hex::encode`: two lower-case digits a byte. */
  function HexEncode(b: bytes): bytes {
    if b == [] then [] else [HexDigit(b[0] / 16), HexDigit(b[0] % 16)] + HexEncode(b[1..])
  }

  /** `hex::decode`: either case; an odd length or a foreign character is an error. */
  function HexDecode(s: bytes): Option<bytes> {
    if s == [] then Some([])
    else if |s| == 1 then None
    else
      var hi, lo, t := HexValue(s[0]), HexValue(s[1]), HexDecode(s[2..]);
      if hi.None? || lo.None? || t.None? then None else Some([hi.value * 16 + lo.value] + t.value)
  }

  lemma {:induction false} HexRoundTrip(b: bytes)
    ensures HexDecode(HexEncode(b)) == Some(b)
  {
    if b != [] {
      HexRoundTrip(b[1..]);
      assert HexEncode(b)[2..] == HexEncode(b[1..]);
      assert b == [b[0]] + b[1..];
    }
  }

  lemma HexInjective(a: bytes, b: bytes)
    requires HexEncode(a) == HexEncode(b)
    ensures a == b
  {
    HexRoundTrip(a);
    HexRoundTrip(b);
  }

  /** The digits of base 16, and that both cases of a letter are read. */
  lemma HexDigitsAre(v: int, c: byte)
    requires 0 <= v < 16
    ensures HexDigit(v) == "0123456789abcdef"[v] as int
    ensures HexValue(c) == Some(v) <==> c == "0123456789abcdef"[v] as int || c == "0123456789ABCDEF"[v] as int
  {
  }

  /** Two digits a byte, the high half first. */
  lemma {:induction false} HexEncodeSpells(b: bytes, i: nat)
    requires i < |b|
    ensures |HexEncode(b)| == 2 * |b|
    ensures HexEncode(b)[2 * i] == "0123456789abcdef"[b[i] / 16] as int
    ensures HexEncode(b)[2 * i + 1] == "0123456789abcdef"[b[i] % 16] as int
  {
    HexDigitsAre(b[i] / 16, 0);
    HexDigitsAre(b[i] % 16, 0);
    if i > 0 {
      HexEncodeSpells(b[1..], i - 1);
    } else if |b| > 1 {
      HexEncodeSpells(b[1..], 0);
    }
  }

  /** Two hexadecimal digits, in either case of letters, spell a byte. */
  predicate PairSpells(hi: byte, lo: byte, b: byte) {
    HexValue(hi).Some? && HexValue(lo).Some? && b == HexValue(hi).value * 16 + HexValue(lo).value
  }

  /** Text `s` spells `b`. */
  predicate HexSpells(s: bytes, b: bytes) {
    |s| == 2 * |b| && forall i | 0 <= i < |b| :: PairSpells(s[2 * i], s[2 * i + 1], b[i])
  }

  lemma HexSpellsTail(s: bytes, b: bytes)
    requires |s| >= 2 && b != []
    ensures HexSpells(s, b) <==> HexSpells(s[2..], b[1..]) && PairSpells(s[0], s[1], b[0])
  {
    var t, d := s[2..], b[1..];
    if HexSpells(s, b) {
      forall i | 0 <= i < |d| ensures PairSpells(t[2 * i], t[2 * i + 1], d[i]) {
        assert PairSpells(s[2 * (i + 1)], s[2 * (i + 1) + 1], b[i + 1]);
      }
      assert PairSpells(s[2 * 0], s[2 * 0 + 1], b[0]);
    }
    if HexSpells(t, d) && PairSpells(s[0], s[1], b[0]) {
      forall i | 0 <= i < |b| ensures PairSpells(s[2 * i], s[2 * i + 1], b[i]) {
        if i > 0 {
          assert PairSpells(t[2 * (i - 1)], t[2 * (i - 1) + 1], d[i - 1]);
        }
      }
    }
  }

  /** The decoder reads exactly the texts that spell bytes. */
  lemma {:induction false} HexDecodeIff(s: bytes, b: bytes)
    ensures HexDecode(s) == Some(b) <==> HexSpells(s, b)
  {
    if |s| >= 2 {
      if b != [] {
        HexDecodeIff(s[2..], b[1..]);
        HexSpellsTail(s, b);
      }
      var t := HexDecode(s[2..]);
      if HexDecode(s).Some? {
        assert HexDecode(s).value[1..] == t.value;
      }
      if b != [] {
        assert b == [b[0]] + b[1..];
      }
    }
  }
}
