/** The JSON text that `serde_json` writes and reads (RFC 8259): compact printing, and a recursive
    descent parser that also accepts insignificant whitespace and every string escape.  A value that
    no field of the program can hold is only skipped, by rules that ask less of its strings. */
module Json {
  import opened Bytes

  /** `Other` is a value that can only be skipped, its text not kept: a number that is not a natural number, a
      string with an unpaired surrogate, or an object with such a key. */
  datatype Json =
    | Null
    | Bool(b: bool)
    | Num(n: nat)
    | Str(s: bytes)
    | Arr(items: seq<Json>)
    | Obj(members: seq<Member>)
    | Other

  datatype Member = Member(key: bytes, value: Json)

  const MINUS: byte := 45
  const QUOTE: byte := 34
  const BACKSLASH: byte := 92
  const COMMA: byte := 44
  const COLON: byte := 58
  const LBRACKET: byte := 91
  const RBRACKET: byte := 93
  const LBRACE: byte := 123
  const RBRACE: byte := 125

  // ---------------------------------------------------------------- printing

  /** One byte of string content, escaped as section 7 of RFC 8259 requires. */
  function Escape(b: byte): bytes {
    if b == QUOTE || b == BACKSLASH then [BACKSLASH, b]
    else if b == 8 then [BACKSLASH, 98]
    else if b == 9 then [BACKSLASH, 116]
    else if b == 10 then [BACKSLASH, 110]
    else if b == 12 then [BACKSLASH, 102]
    else if b == 13 then [BACKSLASH, 114]
    else if b < 32 then [BACKSLASH, 117, 48, 48, HexDigit(b / 16), HexDigit(b % 16)]
    else [b]
  }

  function EscapeAll(s: bytes): bytes {
    if s == [] then [] else Escape(s[0]) + EscapeAll(s[1..])
  }

  function PrintString(s: bytes): bytes {
    [QUOTE] + (EscapeAll(s) + [QUOTE])
  }

  function PrintNat(n: nat): bytes {
    if n < 10 then [48 + n] else PrintNat(n / 10) + [48 + n % 10]
  }

  /** The program prints no `Other`; a number stands for it. */
  function Print(j: Json): bytes
    decreases j, 0
  {
    match j
    case Null => Ascii("null")
    case Bool(b) => if b then Ascii("true") else Ascii("false")
    case Num(n) => PrintNat(n)
    case Str(s) => PrintString(s)
    case Arr(items) => [LBRACKET] + (PrintItems(items) + [RBRACKET])
    case Obj(members) => [LBRACE] + (PrintMembers(members) + [RBRACE])
    case Other => [MINUS, 49]
  }

  function PrintItems(items: seq<Json>): bytes
    decreases items, 1
  {
    if items == [] then []
    else if |items| == 1 then Print(items[0])
    else Print(items[0]) + ([COMMA] + PrintItems(items[1..]))
  }

  function PrintMember(m: Member): bytes
    decreases m, 1
  {
    PrintString(m.key) + ([COLON] + Print(m.value))
  }

  function PrintMembers(members: seq<Member>): bytes
    decreases members, 1
  {
    if members == [] then []
    else if |members| == 1 then PrintMember(members[0])
    else PrintMember(members[0]) + ([COMMA] + PrintMembers(members[1..]))
  }

  // ---------------------------------------------------------------- parsing

  predicate IsWs(b: byte) {
    b == 32 || b == 9 || b == 10 || b == 13
  }

  function SkipWs(s: bytes): (r: bytes)
    ensures |r| <= |s|
    ensures r != [] ==> !IsWs(r[0])
  {
    if s != [] && IsWs(s[0]) then SkipWs(s[1..]) else s
  }

  /** A parsed prefix and what follows it. */
  datatype Parsed<+T> = Parsed(value: T, rest: bytes)

  function HexQuad(s: bytes): (v: Option<int>)
    ensures v.Some? ==> |s| >= 4 && 0 <= v.value < 0x10000
  {
    if |s| < 4 then None
    else
      var a, b, c, d := HexValue(s[0]), HexValue(s[1]), HexValue(s[2]), HexValue(s[3]);
      if a.None? || b.None? || c.None? || d.None? then None
      else Some(((a.value * 16 + b.value) * 16 + c.value) * 16 + d.value)
  }

  function Utf8(code: int): bytes
    requires 0 <= code < 0x110000
  {
    if code < 0x80 then [code]
    else if code < 0x800 then [0xC0 + code / 64, 0x80 + code % 64]
    else if code < 0x10000 then [0xE0 + code / 4096, 0x80 + code / 64 % 64, 0x80 + code % 64]
    else [0xF0 + code / 0x40000, 0x80 + code / 4096 % 64, 0x80 + code / 64 % 64, 0x80 + code % 64]
  }

  /** `\uXXXX`, after the `u`; a surrogate must come as a pair. */
  function ParseUnicodeEscape(s: bytes): (r: Option<Parsed<bytes>>)
    ensures r.Some? ==> |r.value.rest| < |s|
  {
    var hi := HexQuad(s);
    if hi.None? || 0xDC00 <= hi.value < 0xE000 then None
    else if hi.value < 0xD800 || 0xE000 <= hi.value then Some(Parsed(Utf8(hi.value), s[4..]))
    else if |s| < 6 || s[4] != BACKSLASH || s[5] != 117 then None
    else
      var lo := HexQuad(s[6..]);
      if lo.None? || lo.value < 0xDC00 || 0xE000 <= lo.value then None
      else Some(Parsed(Utf8(0x10000 + (hi.value - 0xD800) * 0x400 + (lo.value - 0xDC00)), s[10..]))
  }

  /** An escape, after its backslash. */
  function ParseEscape(s: bytes): (r: Option<Parsed<bytes>>)
    ensures r.Some? ==> |r.value.rest| < |s|
  {
    if s == [] then None
    else if s[0] == QUOTE || s[0] == BACKSLASH || s[0] == 47 then Some(Parsed([s[0]], s[1..]))
    else if s[0] == 98 then Some(Parsed([8], s[1..]))
    else if s[0] == 102 then Some(Parsed([12], s[1..]))
    else if s[0] == 110 then Some(Parsed([10], s[1..]))
    else if s[0] == 114 then Some(Parsed([13], s[1..]))
    else if s[0] == 116 then Some(Parsed([9], s[1..]))
    else if s[0] == 117 then ParseUnicodeEscape(s[1..])
    else None
  }

  /** String content up to and including the closing quote. */
  function ParseChars(s: bytes): (r: Option<Parsed<bytes>>)
    ensures r.Some? ==> |r.value.rest| < |s|
  {
    if s == [] then None
    else if s[0] == QUOTE then Some(Parsed([], s[1..]))
    else if s[0] == BACKSLASH then
      var e := ParseEscape(s[1..]);
      if e.None? then None
      else
        var t := ParseChars(e.value.rest);
        if t.None? then None else Some(Parsed(e.value.value + t.value.value, t.value.rest))
    else if s[0] < 32 then None
    else
      var t := ParseChars(s[1..]);
      if t.None? then None else Some(Parsed([s[0]] + t.value.value, t.value.rest))
  }

  predicate IsDigit(b: byte) {
    48 <= b <= 57
  }

  function ParseDigits(s: bytes, acc: nat): (r: Parsed<nat>)
    ensures |r.rest| <= |s|
  {
    if s != [] && IsDigit(s[0]) then ParseDigits(s[1..], acc * 10 + (s[0] - 48)) else Parsed(acc, s)
  }

  /** A number that does not continue into a fraction or an exponent. */
  function ParseNumber(s: bytes): (r: Option<Parsed<Json>>)
    requires s != [] && IsDigit(s[0])
    ensures r.Some? ==> |r.value.rest| < |s|
  {
    var d := ParseDigits(s[1..], s[0] - 48);
    if s[0] == 48 && d.rest != s[1..] then None
    else if d.rest != [] && (d.rest[0] == 46 || d.rest[0] == 69 || d.rest[0] == 101) then None
    else Some(Parsed(Num(d.value), d.rest))
  }

  // ---------------------------------------------------------------- skipping

  function SkipDigits(s: bytes): (r: bytes)
    ensures |r| <= |s|
  {
    if s != [] && IsDigit(s[0]) then SkipDigits(s[1..]) else s
  }

  /** At least one digit. */
  function SkipDigits1(s: bytes): (r: Option<bytes>)
    ensures r.Some? ==> |r.value| < |s|
  {
    if s == [] || !IsDigit(s[0]) then None else Some(SkipDigits(s[1..]))
  }

  function SkipInt(s: bytes): (r: Option<bytes>)
    ensures r.Some? ==> |r.value| < |s|
  {
    if s != [] && s[0] == 48 then
      if s[1..] != [] && IsDigit(s[1]) then None else Some(s[1..])
    else SkipDigits1(s)
  }

  function SkipFraction(s: bytes): (r: Option<bytes>)
    ensures r.Some? ==> |r.value| <= |s|
  {
    if s != [] && s[0] == 46 then SkipDigits1(s[1..]) else Some(s)
  }

  function SkipExponent(s: bytes): (r: Option<bytes>)
    ensures r.Some? ==> |r.value| <= |s|
  {
    if s == [] || (s[0] != 69 && s[0] != 101) then Some(s)
    else
      var t := s[1..];
      SkipDigits1(if t != [] && (t[0] == 43 || t[0] == MINUS) then t[1..] else t)
  }

  /** Any number of section 6 of RFC 8259. */
  function SkipNumber(s: bytes): (r: Option<bytes>)
    ensures r.Some? ==> |r.value| < |s|
  {
    var i := SkipInt(if s != [] && s[0] == MINUS then s[1..] else s);
    if i.None? then None
    else
      var f := SkipFraction(i.value);
      if f.None? then None else SkipExponent(f.value)
  }

  /** An escape, after its backslash; surrogates are not looked at. */
  function SkipEscape(s: bytes): (r: Option<bytes>)
    ensures r.Some? ==> |r.value| < |s|
  {
    if s == [] then None
    else if s[0] == 117 then
      if HexQuad(s[1..]).None? then None else Some(s[5..])
    else if ParseEscape(s).None? then None
    else Some(s[1..])
  }

  function SkipChars(s: bytes): (r: Option<bytes>)
    ensures r.Some? ==> |r.value| < |s|
  {
    if s == [] then None
    else if s[0] == QUOTE then Some(s[1..])
    else if s[0] == BACKSLASH then
      var e := SkipEscape(s[1..]);
      if e.None? then None else SkipChars(e.value)
    else if s[0] < 32 then None
    else SkipChars(s[1..])
  }

  /** The text of any value, of which nothing is kept. */
  function SkipValue(s: bytes): (r: Option<bytes>)
    ensures r.Some? ==> |r.value| < |s|
    decreases |s|, 0
  {
    var t := SkipWs(s);
    if t == [] then None
    else if t[0] == QUOTE then SkipChars(t[1..])
    else if t[0] == LBRACKET then
      var u := SkipWs(t[1..]);
      if u != [] && u[0] == RBRACKET then Some(u[1..]) else SkipItems(t[1..])
    else if t[0] == LBRACE then
      var u := SkipWs(t[1..]);
      if u != [] && u[0] == RBRACE then Some(u[1..]) else SkipMembers(t[1..])
    else if IsDigit(t[0]) || t[0] == MINUS then SkipNumber(t)
    else if StartsWith(t, Ascii("null")) then Some(t[4..])
    else if StartsWith(t, Ascii("true")) then Some(t[4..])
    else if StartsWith(t, Ascii("false")) then Some(t[5..])
    else None
  }

  function SkipItems(s: bytes): (r: Option<bytes>)
    ensures r.Some? ==> |r.value| < |s|
    decreases |s|, 1
  {
    var v := SkipValue(s);
    if v.None? then None
    else
      var u := SkipWs(v.value);
      if u == [] then None
      else if u[0] == RBRACKET then Some(u[1..])
      else if u[0] != COMMA then None
      else SkipItems(u[1..])
  }

  function SkipMember(s: bytes): (r: Option<bytes>)
    ensures r.Some? ==> |r.value| < |s|
    decreases |s|, 1
  {
    var t := SkipWs(s);
    if t == [] || t[0] != QUOTE then None
    else
      var k := SkipChars(t[1..]);
      if k.None? then None
      else
        var u := SkipWs(k.value);
        if u == [] || u[0] != COLON then None else SkipValue(u[1..])
  }

  function SkipMembers(s: bytes): (r: Option<bytes>)
    ensures r.Some? ==> |r.value| < |s|
    decreases |s|, 2
  {
    var m := SkipMember(s);
    if m.None? then None
    else
      var u := SkipWs(m.value);
      if u == [] then None
      else if u[0] == RBRACE then Some(u[1..])
      else if u[0] != COMMA then None
      else SkipMembers(u[1..])
  }

  // ---------------------------------------------------------------- values

  /** A value is read if it can be, and else skipped. */
  function ParseValue(s: bytes): (r: Option<Parsed<Json>>)
    ensures r.Some? ==> |r.value.rest| < |s|
    decreases |s|, 1
  {
    var v := ReadValue(s);
    if v.Some? then v
    else
      var rest := SkipValue(s);
      if rest.None? then None else Some(Parsed(Other, rest.value))
  }

  function ReadValue(s: bytes): (r: Option<Parsed<Json>>)
    ensures r.Some? ==> |r.value.rest| < |s|
    decreases |s|, 0
  {
    var t := SkipWs(s);
    if t == [] then None
    else if t[0] == QUOTE then
      var c := ParseChars(t[1..]);
      if c.None? then None else Some(Parsed(Str(c.value.value), c.value.rest))
    else if t[0] == LBRACKET then
      var u := SkipWs(t[1..]);
      if u != [] && u[0] == RBRACKET then Some(Parsed(Arr([]), u[1..]))
      else
        var i := ParseItems(t[1..]);
        if i.None? then None else Some(Parsed(Arr(i.value.value), i.value.rest))
    else if t[0] == LBRACE then
      var u := SkipWs(t[1..]);
      if u != [] && u[0] == RBRACE then Some(Parsed(Obj([]), u[1..]))
      else
        var m := ParseMembers(t[1..]);
        if m.None? then None else Some(Parsed(Obj(m.value.value), m.value.rest))
    else if IsDigit(t[0]) then ParseNumber(t)
    else if StartsWith(t, Ascii("null")) then Some(Parsed(Null, t[4..]))
    else if StartsWith(t, Ascii("true")) then Some(Parsed(Bool(true), t[4..]))
    else if StartsWith(t, Ascii("false")) then Some(Parsed(Bool(false), t[5..]))
    else None
  }

  /** Array elements, up to and including the closing bracket. */
  function ParseItems(s: bytes): (r: Option<Parsed<seq<Json>>>)
    ensures r.Some? ==> |r.value.rest| < |s|
    decreases |s|, 2
  {
    var v := ParseValue(s);
    if v.None? then None
    else
      var u := SkipWs(v.value.rest);
      if u == [] then None
      else if u[0] == RBRACKET then Some(Parsed([v.value.value], u[1..]))
      else if u[0] != COMMA then None
      else
        var i := ParseItems(u[1..]);
        if i.None? then None else Some(Parsed([v.value.value] + i.value.value, i.value.rest))
  }

  function ParseMember(s: bytes): (r: Option<Parsed<Member>>)
    ensures r.Some? ==> |r.value.rest| < |s|
    decreases |s|, 2
  {
    var t := SkipWs(s);
    if t == [] || t[0] != QUOTE then None
    else
      var k := ParseChars(t[1..]);
      if k.None? then None
      else
        var u := SkipWs(k.value.rest);
        if u == [] || u[0] != COLON then None
        else
          var v := ParseValue(u[1..]);
          if v.None? then None else Some(Parsed(Member(k.value.value, v.value.value), v.value.rest))
  }

  /** Object members, up to and including the closing brace. */
  function ParseMembers(s: bytes): (r: Option<Parsed<seq<Member>>>)
    ensures r.Some? ==> |r.value.rest| < |s|
    decreases |s|, 3
  {
    var m := ParseMember(s);
    if m.None? then None
    else
      var u := SkipWs(m.value.rest);
      if u == [] then None
      else if u[0] == RBRACE then Some(Parsed([m.value.value], u[1..]))
      else if u[0] != COMMA then None
      else
        var t := ParseMembers(u[1..]);
        if t.None? then None else Some(Parsed([m.value.value] + t.value.value, t.value.rest))
  }

  /** `serde_json::from_slice` into a value: one value, then only whitespace. */
  function FromSlice(s: bytes): Option<Json> {
    var v := ParseValue(s);
    if v.Some? && SkipWs(v.value.rest) == [] then Some(v.value.value) else None
  }

  // ---------------------------------------------------------------- round trip

  /** What may follow a value inside a document: nothing that would extend a number. */
  predicate Ends(rest: bytes) {
    rest == [] || rest[0] == COMMA || rest[0] == RBRACKET || rest[0] == RBRACE || IsWs(rest[0])
  }

  lemma UnicodeEscapeRoundTrip(b: byte, rest: bytes)
    requires b < 32
    ensures ParseUnicodeEscape([48, 48, HexDigit(b / 16), HexDigit(b % 16)] + rest) == Some(Parsed([b], rest))
  {
    var q := [48, 48, HexDigit(b / 16), HexDigit(b % 16)];
    Append(q, rest);
    assert HexQuad(q + rest) == Some(b);
  }

  lemma EscapeRoundTrip(b: byte, rest: bytes)
    requires Escape(b)[0] == BACKSLASH
    ensures ParseEscape(Escape(b)[1..] + rest) == Some(Parsed([b], rest))
  {
    if |Escape(b)| == 2 {
      assert Escape(b)[1..] == [Escape(b)[1]];
      Cons(Escape(b)[1], rest);
    } else {
      var q := [48, 48, HexDigit(b / 16), HexDigit(b % 16)];
      UnicodeEscapeRoundTrip(b, rest);
      assert Escape(b)[1..] == [117] + q;
      Assoc([117], q, rest);
      Cons(117, q + rest);
    }
  }

  // ---------------------------------------------------------------- Unicode escapes

  function Hex4(v: int): bytes
    requires 0 <= v < 0x10000
  {
    [HexDigit(v / 4096), HexDigit(v / 256 % 16), HexDigit(v / 16 % 16), HexDigit(v % 16)]
  }

  lemma HexDigitReads(d: int)
    requires 0 <= d < 16
    ensures HexValue(HexDigit(d)) == Some(d)
  {
  }

  lemma Regroup4(v: int)
    requires 0 <= v < 0x10000
    ensures ((v / 4096 * 16 + v / 256 % 16) * 16 + v / 16 % 16) * 16 + v % 16 == v
  {
    assert v / 4096 == v / 256 / 16 && v / 256 == v / 16 / 16;
  }

  lemma Hex4Reads(v: int, rest: bytes)
    requires 0 <= v < 0x10000
    ensures HexQuad(Hex4(v) + rest) == Some(v) && (Hex4(v) + rest)[4..] == rest
  {
    Append(Hex4(v), rest);
    HexDigitReads(v / 4096);
    HexDigitReads(v / 256 % 16);
    HexDigitReads(v / 16 % 16);
    HexDigitReads(v % 16);
    Regroup4(v);
  }

  predicate IsSurrogate(code: int) {
    0xD800 <= code < 0xE000
  }

  /** A character as the escapes that spell it (section 7 of RFC 8259), after the first `\u`. */
  function UnicodeEscape(code: int): bytes
    requires 0 <= code < 0x110000
  {
    if code < 0x10000 then Hex4(code)
    else Hex4(0xD800 + (code - 0x10000) / 0x400) + ([BACKSLASH, 117] + Hex4(0xDC00 + (code - 0x10000) % 0x400))
  }

  lemma PairReads(hi: int, lo: int, rest: bytes)
    requires 0xD800 <= hi < 0xDC00 && 0xDC00 <= lo < 0xE000
    ensures ParseUnicodeEscape(Hex4(hi) + ([BACKSLASH, 117] + (Hex4(lo) + rest)))
            == Some(Parsed(Utf8(0x10000 + (hi - 0xD800) * 0x400 + (lo - 0xDC00)), rest))
  {
    var tail := Hex4(lo) + rest;
    var s, t := Hex4(hi) + ([BACKSLASH, 117] + tail), [BACKSLASH, 117] + tail;
    Hex4Reads(hi, t);
    Hex4Reads(lo, rest);
    Append([BACKSLASH, 117], tail);
    assert s[4..][0] == t[0] && s[4..][1] == t[1];
    assert s[6..] == s[4..][2..] == tail;
    assert s[10..] == s[6..][4..];
  }

  lemma PairText(a: bytes, b: bytes, c: bytes, d: bytes)
    ensures (a + (b + c)) + d == a + (b + (c + d))
  {
    Assoc(a, b + c, d);
    Assoc(b, c, d);
  }

  /** The escaped spelling of every character is read as that character's UTF-8 bytes. */
  lemma UnicodeEscapeReads(code: int, rest: bytes)
    requires 0 <= code < 0x110000 && !IsSurrogate(code)
    ensures ParseUnicodeEscape(UnicodeEscape(code) + rest) == Some(Parsed(Utf8(code), rest))
  {
    if code < 0x10000 {
      Hex4Reads(code, rest);
    } else {
      var hi, lo := 0xD800 + (code - 0x10000) / 0x400, 0xDC00 + (code - 0x10000) % 0x400;
      assert 0x10000 + (hi - 0xD800) * 0x400 + (lo - 0xDC00) == code;
      PairReads(hi, lo, rest);
      PairText(Hex4(hi), [BACKSLASH, 117], Hex4(lo), rest);
    }
  }

  /** A surrogate that is not the first of a pair is refused. */
  lemma LoneSurrogateRefused(code: int, rest: bytes)
    requires IsSurrogate(code)
    requires code < 0xDC00 ==>
               || !StartsWith(rest, [BACKSLASH, 117])
               || HexQuad(rest[2..]).None? || !(0xDC00 <= HexQuad(rest[2..]).value < 0xE000)
    ensures ParseUnicodeEscape(Hex4(code) + rest) == None
  {
    var s := Hex4(code) + rest;
    Hex4Reads(code, rest);
    if code < 0xDC00 && |s| >= 6 && s[4] == BACKSLASH && s[5] == 117 {
      assert rest[..2] == [BACKSLASH, 117];
      assert s[6..] == s[4..][2..];
    }
  }

  /** Reading one escaped byte. */
  lemma CharStep(b: byte, tail: bytes)
    requires ParseChars(tail).Some?
    ensures ParseChars(Escape(b) + tail)
            == Some(Parsed([b] + ParseChars(tail).value.value, ParseChars(tail).value.rest))
  {
    var e := Escape(b);
    if e[0] == BACKSLASH {
      EscapeRoundTrip(b, tail);
      assert e == [BACKSLASH] + e[1..];
      Assoc([BACKSLASH], e[1..], tail);
      Cons(BACKSLASH, e[1..] + tail);
    } else {
      Cons(b, tail);
    }
  }

  lemma {:induction false} CharsRoundTrip(s: bytes, rest: bytes)
    ensures ParseChars(EscapeAll(s) + ([QUOTE] + rest)) == Some(Parsed(s, rest))
  {
    if s == [] {
      assert EscapeAll(s) + ([QUOTE] + rest) == [QUOTE] + rest;
      Cons(QUOTE, rest);
    } else {
      CharsRoundTrip(s[1..], rest);
      CharStep(s[0], EscapeAll(s[1..]) + ([QUOTE] + rest));
      Assoc(Escape(s[0]), EscapeAll(s[1..]), [QUOTE] + rest);
      assert s == [s[0]] + s[1..];
    }
  }

  lemma StringRoundTrip(k: bytes, rest: bytes)
    ensures var s := PrintString(k) + rest;
            s[0] == QUOTE && ParseChars(s[1..]) == Some(Parsed(k, rest))
  {
    CharsRoundTrip(k, rest);
    Assoc([QUOTE], EscapeAll(k) + [QUOTE], rest);
    Assoc(EscapeAll(k), [QUOTE], rest);
    Cons(QUOTE, EscapeAll(k) + ([QUOTE] + rest));
  }

  lemma {:induction false} DigitsRoundTrip(n: nat, rest: bytes)
    ensures ParseDigits(PrintNat(n) + rest, 0) == ParseDigits(rest, n)
    ensures IsDigit(PrintNat(n)[0])
    ensures PrintNat(n)[0] == 48 <==> n == 0
  {
    if n < 10 {
      Cons(48 + n, rest);
    } else {
      var d := 48 + n % 10;
      DigitsRoundTrip(n / 10, [d] + rest);
      Assoc(PrintNat(n / 10), [d], rest);
      Cons(d, rest);
    }
  }

  lemma NumberRoundTrip(n: nat, rest: bytes)
    requires Ends(rest)
    ensures ParseValue(PrintNat(n) + rest) == Some(Parsed(Num(n), rest))
  {
    var s := PrintNat(n) + rest;
    DigitsRoundTrip(n, rest);
    assert s[0] == PrintNat(n)[0];
    assert SkipWs(s) == s;
    assert ParseDigits(s, 0) == ParseDigits(s[1..], s[0] - 48);
    assert ParseDigits(rest, n) == Parsed(n, rest);
    if n == 0 {
      Cons(48, rest);
    }
  }

  lemma StringValue(k: bytes, rest: bytes)
    ensures ParseValue(PrintString(k) + rest) == Some(Parsed(Str(k), rest))
  {
    StringRoundTrip(k, rest);
  }

  lemma LiteralRoundTrip(text: bytes, rest: bytes)
    requires text == Ascii("null") || text == Ascii("true") || text == Ascii("false")
    ensures (text + rest)[..|text|] == text && (text + rest)[|text|..] == rest
    ensures text + rest != [] && (text + rest)[0] == text[0] && SkipWs(text + rest) == text + rest
    ensures forall other | other in {Ascii("null"), Ascii("true"), Ascii("false")} && other != text ::
              !StartsWith(text + rest, other)
  {
    var s := text + rest;
    forall other | other in {Ascii("null"), Ascii("true"), Ascii("false")} && other != text
      ensures !StartsWith(s, other)
    {
      assert s[0] == text[0] != other[0];
      if |other| <= |s| {
        assert s[..|other|][0] == s[0];
      }
    }
  }

  lemma LiteralValue(j: Json, rest: bytes)
    requires j.Null? || j.Bool?
    ensures ParseValue(Print(j) + rest) == Some(Parsed(j, rest))
  {
    LiteralRoundTrip(Print(j), rest);
  }

  /** `open` text `close`, before `rest`. */
  lemma Bracketed(open: byte, text: bytes, close: byte, rest: bytes)
    ensures var s := [open] + (text + [close]) + rest;
            s[0] == open && s[1..] == text + ([close] + rest)
  {
    Assoc([open], text + [close], rest);
    Assoc(text, [close], rest);
    Cons(open, text + ([close] + rest));
  }

  lemma Closed(close: byte, rest: bytes)
    requires !IsWs(close)
    ensures SkipWs([close] + rest) == [close] + rest && ([close] + rest)[1..] == rest
  {
    Cons(close, rest);
  }

  lemma ArrayValue(items: seq<Json>, text: bytes, rest: bytes)
    requires if items == [] then text == []
             else && text != [] && !IsWs(text[0]) && text[0] != RBRACKET
                  && ParseItems(text + ([RBRACKET] + rest)) == Some(Parsed(items, rest))
    ensures ParseValue([LBRACKET] + (text + [RBRACKET]) + rest) == Some(Parsed(Arr(items), rest))
  {
    Bracketed(LBRACKET, text, RBRACKET, rest);
    var t := text + ([RBRACKET] + rest);
    if items == [] {
      assert t == [RBRACKET] + rest;
      Closed(RBRACKET, rest);
    } else {
      assert t[0] == text[0];
    }
  }

  lemma ObjectValue(members: seq<Member>, text: bytes, rest: bytes)
    requires if members == [] then text == []
             else && text != [] && text[0] == QUOTE
                  && ParseMembers(text + ([RBRACE] + rest)) == Some(Parsed(members, rest))
    ensures ParseValue([LBRACE] + (text + [RBRACE]) + rest) == Some(Parsed(Obj(members), rest))
  {
    Bracketed(LBRACE, text, RBRACE, rest);
    var t := text + ([RBRACE] + rest);
    if members == [] {
      assert t == [RBRACE] + rest;
      Closed(RBRACE, rest);
    } else {
      assert t[0] == text[0];
    }
  }

  /** A printed value starts with neither whitespace nor a closing bracket. */
  lemma PrintStarts(j: Json)
    ensures Print(j) != [] && !IsWs(Print(j)[0]) && Print(j)[0] != RBRACKET
  {
    match j
    case Num(n) => DigitsRoundTrip(n, []);
    case _ =>
  }

  lemma {:induction false} ValueRoundTrip(j: Json, rest: bytes)
    requires Ends(rest)
    ensures ParseValue(Print(j) + rest) == Some(Parsed(j, rest))
    decreases j, 0
  {
    match j
    case Num(n) => NumberRoundTrip(n, rest);
    case Str(k) => StringValue(k, rest);
    case Arr(items) =>
      if items != [] {
        ItemsRoundTrip(items, rest);
      }
      ArrayValue(items, PrintItems(items), rest);
    case Obj(members) =>
      if members != [] {
        MembersRoundTrip(members, rest);
      }
      ObjectValue(members, PrintMembers(members), rest);
    case Null => LiteralValue(j, rest);
    case Bool(_) => LiteralValue(j, rest);
    case Other => OtherValue(rest);
  }

  lemma OtherValue(rest: bytes)
    requires Ends(rest)
    ensures ParseValue(Print(Other) + rest) == Some(Parsed(Other, rest))
  {
    var s := Print(Other) + rest;
    assert s[0] == MINUS && s[1] == 49 && s[1..][1..] == rest && s[2..] == rest;
    assert SkipWs(s) == s;
    assert !StartsWith(s, Ascii("null")) by { assert Ascii("null")[0] == 110; }
    assert !StartsWith(s, Ascii("true")) by { assert Ascii("true")[0] == 116; }
    assert !StartsWith(s, Ascii("false")) by { assert Ascii("false")[0] == 102; }
    assert ReadValue(s) == None;
    assert SkipInt(s[1..]) == Some(rest);
  }

  lemma LastItem(j: Json, text: bytes, rest: bytes)
    requires ParseValue(text + ([RBRACKET] + rest)) == Some(Parsed(j, [RBRACKET] + rest))
    ensures ParseItems(text + ([RBRACKET] + rest)) == Some(Parsed([j], rest))
  {
    Closed(RBRACKET, rest);
  }

  lemma NextItem(j: Json, text: bytes, items: seq<Json>, tail: bytes, rest: bytes)
    requires ParseItems(tail) == Some(Parsed(items, rest))
    requires ParseValue(text + ([COMMA] + tail)) == Some(Parsed(j, [COMMA] + tail))
    ensures ParseItems(text + ([COMMA] + tail)) == Some(Parsed([j] + items, rest))
  {
    Closed(COMMA, tail);
  }

  lemma {:induction false} ItemsRoundTrip(items: seq<Json>, rest: bytes)
    requires items != []
    ensures PrintItems(items) != [] && !IsWs(PrintItems(items)[0]) && PrintItems(items)[0] != RBRACKET
    ensures ParseItems(PrintItems(items) + ([RBRACKET] + rest)) == Some(Parsed(items, rest))
    decreases items, 1
  {
    var j, text := items[0], Print(items[0]);
    PrintStarts(j);
    if |items| == 1 {
      ValueRoundTrip(j, [RBRACKET] + rest);
      LastItem(j, text, rest);
      assert items == [j];
    } else {
      var more := PrintItems(items[1..]);
      var tail := more + ([RBRACKET] + rest);
      ValueRoundTrip(j, [COMMA] + tail);
      ItemsRoundTrip(items[1..], rest);
      NextItem(j, text, items[1..], tail, rest);
      Assoc(text, [COMMA] + more, [RBRACKET] + rest);
      Assoc([COMMA], more, [RBRACKET] + rest);
      assert items == [j] + items[1..];
    }
  }

  lemma KeyThenValue(m: Member, text: bytes, rest: bytes)
    requires ParseValue(text + rest) == Some(Parsed(m.value, rest))
    ensures ParseMember(PrintString(m.key) + ([COLON] + (text + rest))) == Some(Parsed(m, rest))
  {
    StringRoundTrip(m.key, [COLON] + (text + rest));
    Closed(COLON, text + rest);
  }

  lemma {:induction false} MemberRoundTrip(m: Member, rest: bytes)
    requires Ends(rest)
    ensures PrintMember(m) != [] && PrintMember(m)[0] == QUOTE
    ensures ParseMember(PrintMember(m) + rest) == Some(Parsed(m, rest))
    decreases m, 1
  {
    var text := Print(m.value);
    ValueRoundTrip(m.value, rest);
    KeyThenValue(m, text, rest);
    Assoc(PrintString(m.key), [COLON] + text, rest);
    Assoc([COLON], text, rest);
  }

  lemma LastMember(m: Member, text: bytes, rest: bytes)
    requires ParseMember(text + ([RBRACE] + rest)) == Some(Parsed(m, [RBRACE] + rest))
    ensures ParseMembers(text + ([RBRACE] + rest)) == Some(Parsed([m], rest))
  {
    Closed(RBRACE, rest);
  }

  lemma NextMember(m: Member, text: bytes, members: seq<Member>, tail: bytes, rest: bytes)
    requires ParseMembers(tail) == Some(Parsed(members, rest))
    requires ParseMember(text + ([COMMA] + tail)) == Some(Parsed(m, [COMMA] + tail))
    ensures ParseMembers(text + ([COMMA] + tail)) == Some(Parsed([m] + members, rest))
  {
    Closed(COMMA, tail);
  }

  lemma {:induction false} MembersRoundTrip(members: seq<Member>, rest: bytes)
    requires members != []
    ensures PrintMembers(members) != [] && PrintMembers(members)[0] == QUOTE
    ensures ParseMembers(PrintMembers(members) + ([RBRACE] + rest)) == Some(Parsed(members, rest))
    decreases members, 1
  {
    var m, text := members[0], PrintMember(members[0]);
    if |members| == 1 {
      MemberRoundTrip(m, [RBRACE] + rest);
      LastMember(m, text, rest);
      assert members == [m];
    } else {
      var more := PrintMembers(members[1..]);
      var tail := more + ([RBRACE] + rest);
      MemberRoundTrip(m, [COMMA] + tail);
      MembersRoundTrip(members[1..], rest);
      NextMember(m, text, members[1..], tail, rest);
      Assoc(text, [COMMA] + more, [RBRACE] + rest);
      Assoc([COMMA], more, [RBRACE] + rest);
      assert members == [m] + members[1..];
    }
  }

  // ---------------------------------------------------------------- skipped text is value text

  lemma EscapeSkips(s: bytes)
    requires ParseEscape(s).Some?
    ensures var rest := ParseEscape(s).value.rest;
            SkipEscape(s) == Some(rest) || (|s| >= 6 && SkipEscape(s) == Some(s[5..])
            && StartsWith(s[5..], [BACKSLASH, 117]) && HexQuad(s[7..]).Some? && rest == s[11..])
  {
  }

  /** The rules agree on where a string ends. */
  lemma {:induction false} CharsSkip(s: bytes)
    requires ParseChars(s).Some?
    ensures SkipChars(s) == Some(ParseChars(s).value.rest)
    decreases |s|
  {
    if s[0] == BACKSLASH {
      var rest := ParseEscape(s[1..]).value.rest;
      CharsSkip(rest);
      EscapeSkips(s[1..]);
      if SkipEscape(s[1..]) != Some(rest) {
        PairSkips(s[1..][5..], rest);
      }
    } else if s[0] != QUOTE {
      CharsSkip(s[1..]);
    }
  }

  lemma PairSkips(t: bytes, rest: bytes)
    requires StartsWith(t, [BACKSLASH, 117]) && HexQuad(t[2..]).Some? && rest == t[6..]
    ensures SkipChars(t) == SkipChars(rest)
  {
    assert t[0] == t[..2][0] && t[1] == t[..2][1];
    assert t[1..][1..] == t[2..] && t[1..][5..] == t[6..];
  }

  lemma {:induction false} DigitsSkip(s: bytes, acc: nat)
    ensures ParseDigits(s, acc).rest == SkipDigits(s)
  {
    if s != [] && IsDigit(s[0]) {
      DigitsSkip(s[1..], acc * 10 + (s[0] - 48));
    }
  }

  lemma NumberSkips(s: bytes)
    requires s != [] && IsDigit(s[0]) && ParseNumber(s).Some?
    ensures SkipNumber(s) == Some(ParseNumber(s).value.rest)
  {
    DigitsSkip(s[1..], s[0] - 48);
  }

  lemma {:induction false} ReadSkips(s: bytes)
    requires ReadValue(s).Some?
    ensures SkipValue(s) == Some(ReadValue(s).value.rest)
    decreases |s|, 0
  {
    var t := SkipWs(s);
    if t[0] == LBRACKET || t[0] == LBRACE {
      var u := SkipWs(t[1..]);
      if t[0] == LBRACKET && !(u != [] && u[0] == RBRACKET) {
        ItemsSkip(t[1..]);
      }
      if t[0] == LBRACE && !(u != [] && u[0] == RBRACE) {
        MembersSkip(t[1..]);
      }
    } else {
      ScalarSkips(s);
    }
  }

  lemma ScalarSkips(s: bytes)
    requires ReadValue(s).Some? && SkipWs(s) != [] && SkipWs(s)[0] != LBRACKET && SkipWs(s)[0] != LBRACE
    ensures SkipValue(s) == Some(ReadValue(s).value.rest)
  {
    var t := SkipWs(s);
    if t[0] == QUOTE {
      CharsSkip(t[1..]);
    } else if IsDigit(t[0]) {
      NumberSkips(t);
    }
  }

  /** A value is passed over exactly when it can be skipped, and its text ends at the same place: so it makes no
      difference that the library skips what it does not need without reading it. */
  lemma {:induction false} ValueSkips(s: bytes)
    ensures ParseValue(s).Some? <==> SkipValue(s).Some?
    ensures ParseValue(s).Some? ==> SkipValue(s) == Some(ParseValue(s).value.rest)
    decreases |s|, 1
  {
    if ReadValue(s).Some? {
      ReadSkips(s);
    }
  }

  lemma {:induction false} ItemsSkip(s: bytes)
    requires ParseItems(s).Some?
    ensures SkipItems(s) == Some(ParseItems(s).value.rest)
    decreases |s|, 2
  {
    ValueSkips(s);
    var u := SkipWs(ParseValue(s).value.rest);
    if u[0] != RBRACKET {
      ItemsSkip(u[1..]);
    }
  }

  lemma {:induction false} MemberSkips(s: bytes)
    requires ParseMember(s).Some?
    ensures SkipMember(s) == Some(ParseMember(s).value.rest)
    decreases |s|, 2
  {
    var t := SkipWs(s);
    CharsSkip(t[1..]);
    var u := SkipWs(ParseChars(t[1..]).value.rest);
    ValueSkips(u[1..]);
  }

  lemma {:induction false} MembersSkip(s: bytes)
    requires ParseMembers(s).Some?
    ensures SkipMembers(s) == Some(ParseMembers(s).value.rest)
    decreases |s|, 3
  {
    MemberSkips(s);
    var u := SkipWs(ParseMember(s).value.rest);
    if u[0] != RBRACE {
      MembersSkip(u[1..]);
    }
  }

  /** Reading back the printed text of any value gives that value, whatever bytes its strings
      hold and however deep it nests. */
  lemma RoundTrip(j: Json)
    ensures FromSlice(Print(j)) == Some(j)
  {
    ValueRoundTrip(j, []);
    assert Print(j) + [] == Print(j);
  }

  // ---------------------------------------------------------------- the text itself

  /** Every byte after the first is marked as a continuation. */
  predicate Marked(u: bytes) {
    forall i | 1 <= i < |u| :: 0x80 <= u[i] < 0xC0
  }

  /** What continuation byte `i` adds, if there is one. */
  function Trail(u: bytes, i: nat): int {
    if i < |u| then u[i] as int - 0x80 else 0
  }

  /** A character's UTF-8 bytes (section 3 of RFC 3629): how many, how each is marked, and what they stand for. */
  lemma Utf8Is(code: int)
    requires 0 <= code < 0x110000
    ensures var u := Utf8(code);
            |u| == (if code < 0x80 then 1 else if code < 0x800 then 2 else if code < 0x10000 then 3 else 4)
            && var a: int, b, c, d := u[0], Trail(u, 1), Trail(u, 2), Trail(u, 3);
               if |u| == 1 then a == code
               else if |u| == 2 then 0xC0 <= a < 0xE0 && Marked(u) && (a - 0xC0) * 0x40 + b == code
               else if |u| == 3 then 0xE0 <= a < 0xF0 && Marked(u) && (a - 0xE0) * 0x1000 + b * 0x40 + c == code
               else 0xF0 <= a < 0xF8 && Marked(u) && (a - 0xF0) * 0x40000 + b * 0x1000 + c * 0x40 + d == code
  {
    SextetsOf(code);
    if code >= 0x800 {
      assert Marked(Utf8(code));
    }
  }

  lemma SextetsOf(code: int)
    requires 0 <= code < 0x110000
    ensures code == code / 64 * 64 + code % 64
    ensures code == code / 4096 * 4096 + code / 64 % 64 * 64 + code % 64
    ensures code == code / 0x40000 * 0x40000 + code / 4096 % 64 * 4096 + code / 64 % 64 * 64 + code % 64
    ensures code < 0x10000 ==> code / 4096 < 16
    ensures code / 0x40000 < 8
  {
    var a, b, c := code / 64, code / 64 / 64, code / 64 / 64 / 64;
    assert b == code / 4096 && c == code / 0x40000;
    assert code == a * 64 + code % 64 && a == b * 64 + a % 64 && b == c * 64 + b % 64;
  }

  /** The characters with the property White_Space, as `str::trim` and `split_whitespace` know them. */
  predicate IsUnicodeSpace(code: int) {
    || 9 <= code <= 13 || code in {0x20, 0x85, 0xA0, 0x1680} || 0x2000 <= code <= 0x200A
    || code in {0x2028, 0x2029, 0x202F, 0x205F, 0x3000}
  }

  lemma SpaceIsUnicode(code: int)
    requires 0 <= code < 0x110000
    ensures SpacePrefix(Utf8(code)) == if IsUnicodeSpace(code) then |Utf8(code)| else 0
    ensures SpaceSuffix(Utf8(code)) == if IsUnicodeSpace(code) then |Utf8(code)| else 0
  {
    Utf8Is(code);
  }

  /** How a byte of string content is written (section 7 of RFC 8259, and lower-case digits). */
  lemma EscapeIs(b: byte)
    ensures Escape(b) ==
            if b == '"' as int then Ascii("\\\"")
            else if b == '\\' as int then Ascii("\\\\")
            else if b == 0x08 then Ascii("\\b")
            else if b == 0x09 then Ascii("\\t")
            else if b == 0x0A then Ascii("\\n")
            else if b == 0x0C then Ascii("\\f")
            else if b == 0x0D then Ascii("\\r")
            else if b < 0x20 then Ascii("\\u00") + HexEncode([b])
            else [b]
  {
    if b < 0x20 {
      assert HexEncode([b]) == [HexDigit(b / 16), HexDigit(b % 16)];
    }
  }

  /** Nothing is escaped that need not be. */
  lemma {:induction false} UnescapedIs(s: bytes)
    requires forall i | 0 <= i < |s| :: s[i] >= 0x20 && s[i] != '"' as int && s[i] != '\\' as int
    ensures EscapeAll(s) == s
  {
    if s != [] {
      UnescapedIs(s[1..]);
      assert s == [s[0]] + s[1..];
    }
  }

  lemma {:induction false} EscapeAllAppends(a: bytes, b: bytes)
    ensures EscapeAll(a + b) == EscapeAll(a) + EscapeAll(b)
  {
    if a == [] {
      assert a + b == b;
    } else {
      assert (a + b)[1..] == a[1..] + b;
      EscapeAllAppends(a[1..], b);
      Assoc(Escape(a[0]), EscapeAll(a[1..]), EscapeAll(b));
    }
  }

  lemma EscapeOne(b: byte)
    ensures EscapeAll([b]) == Escape(b)
  {
    assert [b][1..] == [];
    assert Escape(b) + [] == Escape(b);
  }

  /** A string is its bytes' escapes, one after the other, between quotes. */
  lemma StringIs(a: bytes, b: byte)
    ensures PrintString([]) == Ascii("\"\"")
    ensures PrintString(a) == Ascii("\"") + (EscapeAll(a) + Ascii("\""))
    ensures EscapeAll(a + [b]) == EscapeAll(a) + Escape(b)
  {
    EscapeAllAppends(a, [b]);
    EscapeOne(b);
    assert Ascii("\"") == [QUOTE] && Ascii("\"\"") == [QUOTE] + ([] + [QUOTE]);
  }

  /** How a one-letter escape is read, and that there are no others but `\u`. */
  lemma EscapeReads(c: byte, rest: bytes)
    requires c != 'u' as int
    ensures ParseEscape([c] + rest) ==
            if c == '"' as int || c == '\\' as int || c == '/' as int then Some(Parsed([c], rest))
            else if c == 'b' as int then Some(Parsed([0x08], rest))
            else if c == 't' as int then Some(Parsed([0x09], rest))
            else if c == 'n' as int then Some(Parsed([0x0A], rest))
            else if c == 'f' as int then Some(Parsed([0x0C], rest))
            else if c == 'r' as int then Some(Parsed([0x0D], rest))
            else None
  {
    Cons(c, rest);
  }

  /** The text of each kind of value. */
  lemma PrintIs(b: bool, n: nat, s: bytes, items: seq<Json>, members: seq<Member>)
    ensures Print(Null) == Ascii("null") && Print(Bool(b)) == Ascii(if b then "true" else "false")
    ensures Print(Num(n)) == PrintNat(n) && Print(Str(s)) == PrintString(s)
    ensures Print(Arr(items)) == Ascii("[") + (PrintItems(items) + Ascii("]"))
    ensures Print(Obj(members)) == Ascii("{") + (PrintMembers(members) + Ascii("}"))
    ensures |items| >= 2 ==> PrintItems(items) == Print(items[0]) + (Ascii(",") + PrintItems(items[1..]))
    ensures |members| >= 1 ==>
              PrintMembers(members) ==
              (PrintString(members[0].key) + (Ascii(":") + Print(members[0].value)))
              + if |members| == 1 then [] else Ascii(",") + PrintMembers(members[1..])
  {
    assert Ascii("[") == [LBRACKET] && Ascii("]") == [RBRACKET] && Ascii("{") == [LBRACE] && Ascii("}") == [RBRACE];
    assert Ascii(",") == [COMMA] && Ascii(":") == [COLON];
    if |members| == 1 {
      assert PrintMember(members[0]) + [] == PrintMember(members[0]);
    }
  }

  lemma PairParts(e: bytes, hi: bytes, lo: bytes)
    requires e == hi + ([BACKSLASH, 117] + lo) && |hi| == |lo| == 4
    ensures |e| == 10 && e[..4] == hi && e[4..6] == Ascii("\\u") && e[6..] == lo
  {
    ThreeParts(hi, [BACKSLASH, 117], lo);
    assert Ascii("\\u") == [BACKSLASH, 117];
  }

  lemma ThreeParts(a: bytes, b: bytes, c: bytes)
    ensures var s := a + (b + c);
            s[..|a|] == a && s[|a|..|a| + |b|] == b && s[|a| + |b|..] == c
  {
  }

  /** The four digits after `\u`, and the two times four that spell a character beyond U+FFFF. */
  lemma UnicodeEscapeIs(code: int)
    requires 0 <= code < 0x110000
    ensures var e := UnicodeEscape(code);
            if code < 0x10000 then e == HexEncode([code / 0x100, code % 0x100])
            else
              && |e| == 10 && e[4..6] == Ascii("\\u")
              && exists hi: int, lo: int ::
                   && 0xD8 <= hi / 0x100 < 0xDC && 0xDC <= lo / 0x100 < 0xE0
                   && e[..4] == HexEncode([hi / 0x100, hi % 0x100]) && e[6..] == HexEncode([lo / 0x100, lo % 0x100])
                   && code == 0x10000 + (hi - 0xD800) * 0x400 + (lo - 0xDC00)
  {
    if code < 0x10000 {
      Hex4Is(code);
    } else {
      var hi, lo := 0xD800 + (code - 0x10000) / 0x400, 0xDC00 + (code - 0x10000) % 0x400;
      Hex4Is(hi);
      Hex4Is(lo);
      PairParts(UnicodeEscape(code), Hex4(hi), Hex4(lo));
      assert code == 0x10000 + (hi - 0xD800) * 0x400 + (lo - 0xDC00);
    }
  }

  lemma HexEncodeTwo(x: byte, y: byte)
    ensures HexEncode([x, y]) == [HexDigit(x / 16), HexDigit(x % 16), HexDigit(y / 16), HexDigit(y % 16)]
  {
    assert [x, y][1..] == [y];
    assert HexEncode([y]) == [HexDigit(y / 16), HexDigit(y % 16)];
  }

  lemma DigitsOfFour(a: int, b: int, c: int, d: int)
    requires 0 <= a < 16 && 0 <= b < 16 && 0 <= c < 16 && 0 <= d < 16
    ensures var v := a * 4096 + b * 256 + c * 16 + d;
            && v / 4096 == a && v / 256 == a * 16 + b && v / 16 == a * 256 + b * 16 + c
            && v % 256 == c * 16 + d && v % 16 == d
  {
  }

  lemma Halves(v: int)
    requires 0 <= v < 0x10000
    ensures v / 4096 == v / 0x100 / 16 && v / 256 % 16 == v / 0x100 % 16
    ensures v / 16 % 16 == v % 0x100 / 16 && v % 16 == v % 0x100 % 16
  {
    var x, y := v / 0x100, v % 0x100;
    var a, b, c, d := x / 16, x % 16, y / 16, y % 16;
    assert x == a * 16 + b && y == c * 16 + d && v == x * 256 + y;
    DigitsOfFour(a, b, c, d);
    assert (a * 256 + b * 16 + c) % 16 == c && (a * 16 + b) % 16 == b;
  }

  lemma Hex4Is(v: int)
    requires 0 <= v < 0x10000
    ensures Hex4(v) == HexEncode([v / 0x100, v % 0x100]) && |Hex4(v)| == 4
  {
    Halves(v);
    HexEncodeTwo(v / 0x100, v % 0x100);
  }

  // ---------------------------------------------------------------- insignificant whitespace

  /** Space, tab, line feed and carriage return (section 2 of RFC 8259). */
  predicate AreWs(s: bytes) {
    forall b | b in s :: b == 0x20 || b == 0x09 || b == 0x0A || b == 0x0D
  }

  lemma {:induction false} SkipWsIs(ws: bytes, s: bytes)
    requires AreWs(ws) && (s != [] ==> !AreWs([s[0]]))
    ensures SkipWs(ws + s) == s
  {
    if ws == [] {
      assert ws + s == s;
      assert s != [] ==> !IsWs(s[0]);
    } else {
      assert ws[0] in ws && forall b | b in ws[1..] :: b in ws;
      assert (ws + s)[1..] == ws[1..] + s;
      SkipWsIs(ws[1..], s);
    }
  }

  lemma ValueAfterWs(ws: bytes, s: bytes)
    requires AreWs(ws) && s != [] && !AreWs([s[0]])
    ensures ParseValue(ws + s) == ParseValue(s)
  {
    SkipWsIs(ws, s);
    SkipWsIs([], s);
    assert [] + s == s;
  }

  /** A document may stand between such whitespace. */
  lemma WsAround(before: bytes, j: Json, after: bytes)
    requires AreWs(before) && AreWs(after)
    ensures FromSlice(before + (Print(j) + after)) == Some(j)
  {
    var s := Print(j) + after;
    PrintStarts(j);
    assert s[0] == Print(j)[0] && !IsWs(s[0]) && s[0] in [s[0]];
    ValueAfterWs(before, s);
    assert after != [] ==> after[0] in after && IsWs(after[0]);
    ValueRoundTrip(j, after);
    SkipWsIs(after, []);
    assert after + [] == after;
  }

  /** Nothing but whitespace may follow an object. */
  lemma TrailingRefused(members: seq<Member>, rest: bytes)
    requires rest != [] && !AreWs([rest[0]])
    ensures FromSlice(Print(Obj(members)) + rest) == None
  {
    if members != [] {
      MembersRoundTrip(members, rest);
    }
    ObjectValue(members, PrintMembers(members), rest);
    SkipWsIs([], rest);
    assert [] + rest == rest;
  }

  // ---------------------------------------------------------------- skipped strings and numbers

  /** In a skipped string four hexadecimal digits are enough after `\u`, a surrogate's included. */
  lemma UnicodeEscapeSkipped(v: int, rest: bytes)
    requires 0 <= v < 0x10000
    ensures SkipChars(Ascii("\\u") + (HexEncode([v / 0x100, v % 0x100]) + rest)) == SkipChars(rest)
  {
    var t := Hex4(v) + rest;
    Hex4Is(v);
    Hex4Reads(v, rest);
    assert Ascii("\\u") == [BACKSLASH, 117] == [BACKSLASH] + [117];
    Assoc([BACKSLASH], [117], t);
    Cons(BACKSLASH, [117] + t);
    Cons(117, t);
    assert ([117] + t)[5..] == t[4..];
  }

  predicate AreDecimal(s: bytes) {
    forall b | b in s :: '0' as int <= b <= '9' as int
  }

  lemma {:induction false} SkipDigitsIs(d: bytes, rest: bytes)
    requires AreDecimal(d) && (rest != [] ==> !('0' as int <= rest[0] <= '9' as int))
    ensures SkipDigits(d + rest) == rest
  {
    if d == [] {
      assert d + rest == rest;
    } else {
      assert d[0] in d && forall b | b in d[1..] :: b in d;
      assert (d + rest)[1..] == d[1..] + rest;
      SkipDigitsIs(d[1..], rest);
    }
  }

  lemma SkipDigits1Is(d: bytes, rest: bytes)
    requires AreDecimal(d) && d != [] && (rest != [] ==> !('0' as int <= rest[0] <= '9' as int))
    ensures SkipDigits1(d + rest) == Some(rest)
  {
    assert d[0] in d && forall b | b in d[1..] :: b in d;
    assert (d + rest)[1..] == d[1..] + rest;
    SkipDigitsIs(d[1..], rest);
  }

  /** The parts of a number (section 6 of RFC 8259): a fraction or none, an exponent or none. */
  predicate IsFraction(s: bytes) {
    s == [] || (|s| >= 2 && s[0] == '.' as int && AreDecimal(s[1..]))
  }

  predicate IsExponent(s: bytes) {
    s == [] ||
    ((s[0] == 'e' as int || s[0] == 'E' as int) &&
     var t := if |s| >= 2 && (s[1] == '+' as int || s[1] == '-' as int) then s[2..] else s[1..];
     t != [] && AreDecimal(t))
  }

  predicate IsInteger(s: bytes) {
    s != [] && AreDecimal(s) && (s[0] == '0' as int ==> |s| == 1)
  }

  /** What may follow a number. */
  predicate EndsNumber(rest: bytes) {
    rest != [] ==> var b := rest[0]; !('0' as int <= b <= '9' as int) && b !in Ascii(".eE+-")
  }

  lemma SkipExponentIs(e: bytes, rest: bytes)
    requires IsExponent(e) && EndsNumber(rest)
    ensures SkipExponent(e + rest) == Some(rest)
  {
    NumberLetters();
    if e == [] {
      assert e + rest == rest;
    } else {
      assert (e + rest)[1..] == e[1..] + rest;
      if |e| >= 2 && (e[1] == '+' as int || e[1] == '-' as int) {
        assert (e[1..] + rest)[1..] == e[2..] + rest;
        SkipDigits1Is(e[2..], rest);
      } else {
        assert e[1] in e[1..] && (e[1..] + rest)[0] == e[1];
        SkipDigits1Is(e[1..], rest);
      }
    }
  }

  lemma NumberLetters()
    ensures var l := Ascii(".eE+-"); 46 in l && 101 in l && 69 in l && 43 in l && 45 in l
  {
    var l := Ascii(".eE+-");
    assert l[0] == 46 && l[1] == 101 && l[2] == 69 && l[3] == 43 && l[4] == 45;
  }

  lemma SkipFractionIs(f: bytes, rest: bytes)
    requires IsFraction(f) && (rest != [] ==> !('0' as int <= rest[0] <= '9' as int) && rest[0] != '.' as int)
    ensures SkipFraction(f + rest) == Some(rest)
  {
    if f == [] {
      assert f + rest == rest;
    } else {
      assert (f + rest)[1..] == f[1..] + rest;
      SkipDigits1Is(f[1..], rest);
    }
  }

  lemma SkipIntIs(i: bytes, rest: bytes)
    requires IsInteger(i) && (rest != [] ==> !('0' as int <= rest[0] <= '9' as int))
    ensures SkipInt(i + rest) == Some(rest)
  {
    assert i[0] in i && (i + rest)[0] == i[0] && (i + rest)[1..] == i[1..] + rest;
    if i[0] == '0' as int {
      assert i[1..] + rest == rest;
    } else {
      SkipDigits1Is(i, rest);
    }
  }

  lemma UnsignedSkipped(i: bytes, f: bytes, e: bytes, rest: bytes)
    requires IsInteger(i) && IsFraction(f) && IsExponent(e) && EndsNumber(rest)
    ensures var t := i + (f + (e + rest));
            SkipNumber(t) == Some(rest) && SkipNumber([MINUS] + t) == Some(rest)
  {
    var t := i + (f + (e + rest));
    NumberLetters();
    assert i[0] in i && t[0] == i[0];
    SkipIntIs(i, f + (e + rest));
    SkipFractionIs(f, e + rest);
    SkipExponentIs(e, rest);
    Cons(MINUS, t);
  }

  /** Every number of the grammar is skipped, whole: negative ones, fractions and exponents included. */
  lemma NumberSkipped(negative: bool, i: bytes, f: bytes, e: bytes, rest: bytes)
    requires IsInteger(i) && IsFraction(f) && IsExponent(e) && EndsNumber(rest)
    ensures SkipValue((if negative then Ascii("-") else []) + (i + (f + (e + rest)))) == Some(rest)
  {
    var t := i + (f + (e + rest));
    assert i[0] in i && t[0] == i[0];
    UnsignedSkipped(i, f, e, rest);
    NumberValueSkips(if negative then [MINUS] + t else t);
    assert Ascii("-") == [MINUS] && [] + t == t;
  }

  lemma NumberValueSkips(s: bytes)
    requires s != [] && (s[0] == MINUS || '0' as int <= s[0] <= '9' as int)
    ensures SkipValue(s) == SkipNumber(s)
  {
    assert SkipWs(s) == s;
  }
}
