/** How the notary reads HTTP/1.1 bytes: the header split, chunked decoding, and the start line. */
module Http {
  import opened Bytes
  import Json

  const SEMICOLON: byte := 59
  const PLUS: byte := 43
  const SP: byte := 32
  const HEADER_END: bytes := [CR, LF, CR, LF]
  const USIZE_MAX: nat := 0xFFFF_FFFF_FFFF_FFFF

  // ---------------------------------------------------------------- chunk sizes

  /** What precedes the first `b`, or everything. */
  function Before(s: bytes, b: byte): bytes {
    if s == [] || s[0] == b then [] else [s[0]] + Before(s[1..], b)
  }

  function HexFold(s: bytes, acc: nat): Option<nat> {
    if s == [] then Some(acc)
    else
      var d := HexValue(s[0]);
      if d.None? then None else HexFold(s[1..], acc * 16 + d.value)
  }

  predicate AreHexDigits(s: bytes) {
    forall b | b in s :: HexValue(b).Some?
  }

  function HexDigits(s: bytes): (d: seq<nat>)
    requires AreHexDigits(s)
    ensures |d| == |s|
  {
    if s == [] then [] else assert s[0] in s; [HexValue(s[0]).value] + HexDigits(s[1..])
  }

  lemma FoldOneMore(acc: nat, d: nat, p: nat)
    ensures (acc * 16 + d) * p == acc * (16 * p) + d * p
  {
  }

  /** Folding hexadecimal digits gives their value in base 16, and fails on anything else. */
  lemma {:induction false} HexFoldIs(s: bytes, acc: nat)
    ensures HexFold(s, acc) ==
            if AreHexDigits(s) then Some(acc * Pow(16, |s|) + PlaceValue(16, HexDigits(s))) else None
  {
    if s != [] {
      assert s[0] in s && forall b | b in s :: b == s[0] || b in s[1..];
      if HexValue(s[0]).Some? {
        var d := HexValue(s[0]).value;
        HexFoldIs(s[1..], acc * 16 + d);
        if AreHexDigits(s) {
          assert HexDigits(s)[1..] == HexDigits(s[1..]);
          FoldOneMore(acc, d, Pow(16, |s| - 1));
        }
      }
    }
  }

  /** Which texts are read as a size: an optional plus sign and hexadecimal digits below 2^64. */
  lemma ParseHexIff(s: bytes, v: nat)
    ensures var d := if s != [] && s[0] == '+' as int then s[1..] else s;
            ParseHex(s) == Some(v) <==>
            d != [] && AreHexDigits(d) && v == PlaceValue(16, HexDigits(d)) < 0x1_0000_0000_0000_0000
  {
    HexFoldIs(if s != [] && s[0] == PLUS then s[1..] else s, 0);
  }

  /** `usize::from_str_radix(s, 16)`: one optional plus sign, at least one digit, no overflow. */
  function ParseHex(s: bytes): Option<nat> {
    var d := if s != [] && s[0] == PLUS then s[1..] else s;
    if d == [] then None
    else
      var v := HexFold(d, 0);
      if v.None? || v.value > USIZE_MAX then None else v
  }

  /** The size a chunk line announces; anything unreadable counts as 0.  A line that is not UTF-8
      needs no case of its own: no such line is hexadecimal digits between whitespace. */
  function ChunkSize(line: bytes): nat {
    var v := ParseHex(Trim(Before(line, SEMICOLON)));
    if v.None? then 0 else v.value
  }

  // ---------------------------------------------------------------- dechunk

  /** The line end after a chunk's data is dropped if it is there. */
  function SkipCrlf(s: bytes): (r: bytes)
    ensures |r| <= |s|
  {
    if StartsWith(s, CRLF) then s[2..] else s
  }

  datatype Step = Stop | Emit(data: bytes, rest: bytes)

  /** One turn of the loop: the data it emits and the input it leaves, or the end. */
  function NextChunk(body: bytes): (r: Step)
    ensures r.Emit? ==> r.data != [] && |r.data| + 3 + |r.rest| <= |body|
  {
    var nl := Position(body, CRLF);
    if nl.None? then Stop
    else
      var size, rest := ChunkSize(body[..nl.value]), body[nl.value + 2..];
      SizeNeedsDigits(body[..nl.value]);
      if size == 0 || |rest| < size then Stop else Emit(rest[..size], SkipCrlf(rest[size..]))
  }

  /** The bytes `dechunk` yields. */
  function Dechunked(body: bytes): bytes
    decreases |body|
  {
    match NextChunk(body)
    case Stop => []
    case Emit(data, rest) => data + Dechunked(rest)
  }

  /** How many chunks `dechunk` emits. */
  function ChunkCount(body: bytes): nat
    decreases |body|
  {
    match NextChunk(body)
    case Stop => 0
    case Emit(_, rest) => 1 + ChunkCount(rest)
  }

  lemma SizeNeedsDigits(line: bytes)
    ensures ChunkSize(line) != 0 ==> |line| >= 1
  {
    if line == [] {
      assert Before(line, SEMICOLON) == [] && Trim([]) == [];
    }
  }

  /** `dechunk`, on any bytes at all: every slice is in range and the loop ends. */
  method Dechunk(input: bytes) returns (out: bytes)
    ensures out == Dechunked(input)
    ensures |out| + 3 * ChunkCount(input) <= |input|
  {
    var body := input;
    out := [];
    ghost var emitted := 0;
    while Position(body, CRLF).Some?
      invariant out + Dechunked(body) == Dechunked(input)
      invariant emitted + ChunkCount(body) == ChunkCount(input)
      invariant |out| + 3 * emitted + |body| <= |input|
      decreases |body|
    {
      var nl := Position(body, CRLF).value;
      ghost var was := body;
      var size := ChunkSize(body[..nl]);
      body := body[nl + 2..];
      if size == 0 || |body| < size {
        assert NextChunk(was) == Stop;
        break;
      }
      ghost var next := NextChunk(was);
      assert next.Emit? && next.data == body[..size];
      Assoc(out, next.data, Dechunked(next.rest));
      out := out + body[..size];
      body := body[size..];
      if StartsWith(body, CRLF) {
        body := body[2..];
      }
      assert body == next.rest;
      emitted := emitted + 1;
    }
    DechunkBound(input);
  }

  /** The output and three bytes for every chunk emitted fit in the input, so a buffer of the
      input's length is always enough. */
  lemma {:induction false} DechunkBound(body: bytes)
    ensures |Dechunked(body)| + 3 * ChunkCount(body) <= |body|
    decreases |body|
  {
    match NextChunk(body)
    case Stop =>
    case Emit(data, rest) => DechunkBound(rest);
  }

  lemma SkipCrlfMonotone(x: bytes, y: bytes)
    requires x <= y
    ensures SkipCrlf(x) <= SkipCrlf(y) || |SkipCrlf(x)| < 2
  {
    if |x| >= 2 {
      assert x[..2] == y[..2];
      assert x[2..] <= y[2..];
    }
  }

  lemma PrefixParts(p: bytes, q: bytes, n: nat)
    requires p <= q && n <= |p|
    ensures p[..n] == q[..n] && p[n..] <= q[n..]
  {
  }

  lemma NextChunkIs(body: bytes, nl: nat, size: nat)
    requires Position(body, CRLF) == Some(nl) && ChunkSize(body[..nl]) == size
    requires 0 < size <= |body[nl + 2..]|
    ensures NextChunk(body) == Emit(body[nl + 2..][..size], SkipCrlf(body[nl + 2..][size..]))
  {
  }

  /** One turn on a prefix, against one turn on the whole. */
  lemma NextChunkMonotone(p: bytes, q: bytes)
    requires p <= q && NextChunk(p).Emit?
    ensures NextChunk(q).Emit? && NextChunk(q).data == NextChunk(p).data
    ensures NextChunk(p).rest <= NextChunk(q).rest || |NextChunk(p).rest| < 2
  {
    var nl := Position(p, CRLF).value;
    PositionInPrefix(p, q, CRLF);
    PrefixParts(p, q, nl);
    PrefixParts(p, q, nl + 2);
    var size, a, b := ChunkSize(p[..nl]), p[nl + 2..], q[nl + 2..];
    PrefixParts(a, b, size);
    NextChunkIs(p, nl, size);
    NextChunkIs(q, nl, size);
    SkipCrlfMonotone(a[size..], b[size..]);
  }

  lemma ShortInputStops(s: bytes)
    requires |s| < 2
    ensures Dechunked(s) == []
  {
    assert NextChunk(s) == Stop;
  }

  /** More input never takes back output already produced, whether or not the bytes are well formed. */
  lemma {:induction false} DechunkMonotone(p: bytes, q: bytes)
    requires p <= q
    ensures Dechunked(p) <= Dechunked(q)
    decreases |p|
  {
    if NextChunk(p).Emit? {
      NextChunkMonotone(p, q);
      if |NextChunk(p).rest| < 2 {
        ShortInputStops(NextChunk(p).rest);
      } else {
        DechunkMonotone(NextChunk(p).rest, NextChunk(q).rest);
      }
    }
  }

  // ---------------------------------------------------------------- chunked encoding

  /** One line of the chunked coding (section 7.1 of RFC 9112): a size in hexadecimal, in either case
      and with any leading zeros, then optional blanks and extensions. */
  datatype SizeLine = SizeLine(digits: bytes, blanks: bytes, ext: bytes) {
    function Text(): bytes {
      digits + (blanks + ext)
    }

    predicate Announces(size: nat) {
      Spells(size) && size <= USIZE_MAX
    }

    /** The digits spell `size`, which may be more than a `usize` holds. */
    predicate Spells(size: nat) {
      && digits != [] && AreHexDigits(digits) && size == PlaceValue(16, HexDigits(digits))
      && (forall b | b in blanks :: b == SP || b == 9)
      && (ext != [] ==> ext[0] == SEMICOLON)
      && Position(ext, CRLF).None?
    }
  }

  datatype Chunk = Chunk(line: SizeLine, data: bytes) {
    predicate Valid() {
      data != [] && line.Announces(|data|)
    }
  }

  predicate ValidChunks(cs: seq<Chunk>) {
    forall c | c in cs :: c.Valid()
  }

  function Payload(cs: seq<Chunk>): bytes {
    if cs == [] then [] else cs[0].data + Payload(cs[1..])
  }

  /** The chunks, the last chunk, and whatever follows it: trailers, the final line end, or more. */
  function Chunked(cs: seq<Chunk>, last: SizeLine, after: bytes): bytes {
    if cs == [] then last.Text() + (CRLF + after)
    else cs[0].line.Text() + (CRLF + (cs[0].data + (CRLF + Chunked(cs[1..], last, after))))
  }

  lemma {:induction false} BeforeStops(s: bytes, t: bytes, b: byte)
    requires b !in s && (t != [] ==> t[0] == b)
    ensures Before(s + t, b) == s
  {
    if s == [] {
      assert s + t == t;
    } else {
      assert (s + t)[1..] == s[1..] + t;
      BeforeStops(s[1..], t, b);
    }
  }

  lemma {:induction false} BlanksAreWhitespace(s: bytes)
    requires forall b | b in s :: b == SP || b == 9
    ensures IsWhitespace(s)
  {
    if s != [] {
      assert s[0] in s;
      assert SpacePrefix(s) == 1;
      assert forall b | b in s[1..] :: b in s;
      BlanksAreWhitespace(s[1..]);
    }
  }

  lemma TrimDigits(digits: bytes, blanks: bytes)
    requires digits != [] && AreHexDigits(digits)
    requires forall b | b in blanks :: b == SP || b == 9
    ensures Trim(digits + blanks) == digits
  {
    BlanksAreWhitespace(blanks);
    assert digits[0] in digits && digits[|digits| - 1] in digits;
    TrimSurrounded([], digits, blanks);
    assert [] + (digits + blanks) == digits + blanks;
  }

  lemma SizeLineRead(l: SizeLine, size: nat)
    requires l.Spells(size)
    ensures ChunkSize(l.Text()) == if size <= USIZE_MAX then size else 0
  {
    HexFoldIs(l.digits, 0);
    var s := l.digits + l.blanks;
    assert l.Text() == s + l.ext;
    assert SEMICOLON !in s;
    BeforeStops(s, l.ext, SEMICOLON);
    TrimDigits(l.digits, l.blanks);
    assert l.digits[0] in l.digits;
  }

  lemma CrlfAt(s: bytes, j: nat)
    ensures OccursAt(s, CRLF, j) <==> j + 2 <= |s| && s[j] == CR && s[j + 1] == LF
  {
    if j + 2 <= |s| {
      assert s[j..j + 2] == [s[j], s[j + 1]];
    }
  }

  lemma HeaderEndAt(s: bytes, j: nat)
    ensures OccursAt(s, HEADER_END, j) <==>
            j + 4 <= |s| && s[j] == CR && s[j + 1] == LF && s[j + 2] == CR && s[j + 3] == LF
  {
    if j + 4 <= |s| {
      assert s[j..j + 4] == [s[j], s[j + 1], s[j + 2], s[j + 3]];
    }
  }

  /** A line without a line end in it, followed by one, is found whole. */
  lemma LineEndFound(line: bytes, rest: bytes)
    requires Position(line, CRLF).None?
    ensures Position(line + (CRLF + rest), CRLF) == Some(|line|)
  {
    var s := line + (CRLF + rest);
    CrlfAt(s, |line|);
    forall j | 0 <= j < |line| ensures !OccursAt(s, CRLF, j) {
      CrlfAt(s, j);
      CrlfAt(line, j);
    }
    PositionIs(s, CRLF, |line|);
  }

  lemma SizeLineHasNoLineEnd(l: SizeLine, size: nat)
    requires l.Spells(size)
    ensures Position(l.Text(), CRLF).None?
  {
    var t, k := l.Text(), |l.digits| + |l.blanks|;
    forall j: nat ensures !OccursAt(t, CRLF, j) {
      CrlfAt(t, j);
      if j < k {
        assert t[j] in l.digits || t[j] in l.blanks;
      } else {
        CrlfAt(l.ext, j - k);
      }
    }
  }

  lemma SplitAtLineEnd(line: bytes, tail: bytes)
    ensures var s := line + (CRLF + tail);
            s[..|line|] == line && s[|line| + 2..] == tail
  {
    var s := line + (CRLF + tail);
    Append(line, CRLF + tail);
    Append(CRLF, tail);
    assert s[|line|..][2..] == s[|line| + 2..];
  }

  /** One turn of the loop on a size line and what follows it. */
  lemma SizeLineStep(l: SizeLine, size: nat, tail: bytes)
    requires l.Spells(size)
    ensures NextChunk(l.Text() + (CRLF + tail)) ==
            if size == 0 || size > USIZE_MAX || |tail| < size then Stop
            else Emit(tail[..size], SkipCrlf(tail[size..]))
  {
    var line := l.Text();
    var s := line + (CRLF + tail);
    SizeLineHasNoLineEnd(l, size);
    LineEndFound(line, tail);
    SizeLineRead(l, size);
    SplitAtLineEnd(line, tail);
  }

  lemma ChunkStep(c: Chunk, rest: bytes)
    requires c.Valid()
    ensures Dechunked(c.line.Text() + (CRLF + (c.data + rest))) == c.data + Dechunked(SkipCrlf(rest))
  {
    SizeLineStep(c.line, |c.data|, c.data + rest);
    Append(c.data, rest);
  }

  lemma LastChunkStep(last: SizeLine, rest: bytes)
    requires last.Announces(0)
    ensures Dechunked(last.Text() + (CRLF + rest)) == []
  {
    SizeLineStep(last, 0, rest);
  }

  /** Which size a chunk line announces: the part before a semicolon, trimmed, if it can be read, and else 0. */
  lemma ChunkSizeIs(text: bytes, ext: bytes)
    requires ';' as int !in text && (ext != [] ==> ext[0] == ';' as int)
    ensures ChunkSize(text + ext) == ParseHex(Trim(text)).GetOr(0)
  {
    BeforeStops(text, ext, SEMICOLON);
  }

  lemma SkipCrlfIs(t: bytes)
    ensures SkipCrlf(t) == if [13, 10] <= t then t[2..] else t
  {
  }

  lemma TurnEmits(line: bytes, tail: bytes, size: nat)
    requires Position(line, CRLF).None? && ChunkSize(line) == size && 0 < size <= |tail|
    ensures NextChunk(line + (CRLF + tail)) == Emit(tail[..size], SkipCrlf(tail[size..]))
  {
    var s := line + (CRLF + tail);
    LineEndFound(line, tail);
    SplitAtLineEnd(line, tail);
    NextChunkIs(s, |line|, size);
  }

  lemma TurnStops(line: bytes, tail: bytes)
    requires Position(line, CRLF).None? && (ChunkSize(line) == 0 || |tail| < ChunkSize(line))
    ensures NextChunk(line + (CRLF + tail)) == Stop
  {
    LineEndFound(line, tail);
    SplitAtLineEnd(line, tail);
  }

  /** The decoder on any body that has a line end: the first line announces a size, and either all that follows is
      dropped, or that many bytes are data and the line end after them, if there is one, is dropped. */
  lemma DechunkTurn(line: bytes, tail: bytes)
    requires Position(line, [13, 10]).None?
    ensures var size := ChunkSize(line);
            Dechunked(line + ([13, 10] + tail)) ==
            if size == 0 || |tail| < size then []
            else tail[..size] + Dechunked(if [13, 10] <= tail[size..] then tail[size..][2..] else tail[size..])
  {
    var size := ChunkSize(line);
    if 0 < size <= |tail| {
      TurnEmits(line, tail, size);
      SkipCrlfIs(tail[size..]);
    } else {
      TurnStops(line, tail);
    }
  }

  /** And on any other. */
  lemma DechunkWithoutLine(body: bytes)
    requires Position(body, [13, 10]).None?
    ensures Dechunked(body) == []
  {
    assert NextChunk(body) == Stop;
  }

  /** A size too large for a `usize` ends the body like a last chunk does, whatever follows. */
  lemma OversizeStops(l: SizeLine, size: nat, rest: bytes)
    requires l.Spells(size) && size > USIZE_MAX
    ensures Dechunked(l.Text() + (CRLF + rest)) == []
  {
    SizeLineStep(l, size, rest);
  }

  /** Decoding a chunked encoding gives the concatenated chunks: the digest a notary attests does not
      depend on how the server chunked its reply. */
  lemma {:induction false} ChunkedRoundTrip(cs: seq<Chunk>, last: SizeLine, after: bytes)
    requires ValidChunks(cs) && last.Announces(0)
    ensures Dechunked(Chunked(cs, last, after)) == Payload(cs)
  {
    if cs == [] {
      LastChunkStep(last, after);
    } else {
      var tail := Chunked(cs[1..], last, after);
      assert cs[0] in cs;
      ChunkStep(cs[0], CRLF + tail);
      SkipsCrlf(tail);
      ChunkedRoundTrip(cs[1..], last, after);
    }
  }

  /** The data of those chunks that lie wholly in the first `k` bytes of an encoding. */
  function Received(cs: seq<Chunk>, k: nat): bytes {
    if cs == [] then []
    else
      var n := |cs[0].line.Text()| + 2 + |cs[0].data|;
      if k < n then [] else cs[0].data + Received(cs[1..], if k < n + 2 then 0 else k - (n + 2))
  }

  lemma CutBeforeLineEnd(line: bytes, rest: bytes, k: nat)
    requires Position(line, CRLF).None? && k < |line| + 2 && k <= |line + (CRLF + rest)|
    ensures Dechunked((line + (CRLF + rest))[..k]) == []
  {
    var s := line + (CRLF + rest);
    LineEndFound(line, rest);
    if Position(s[..k], CRLF).Some? {
      PositionInPrefix(s[..k], s, CRLF);
    }
    assert NextChunk(s[..k]) == Stop;
  }

  /** A reply cut anywhere decodes to exactly the chunks that arrived whole. */
  lemma {:induction false} TruncatedChunks(cs: seq<Chunk>, last: SizeLine, after: bytes, k: nat)
    requires ValidChunks(cs) && last.Announces(0) && k <= |Chunked(cs, last, after)|
    ensures Dechunked(Chunked(cs, last, after)[..k]) == Received(cs, k)
  {
    if cs == [] {
      TruncatedLast(last, after, k);
    } else {
      var c, tail := cs[0], Chunked(cs[1..], last, after);
      assert c in cs;
      var n := |c.line.Text()| + 2 + |c.data|;
      if k < n {
        CutInChunk(c, CRLF + tail, k);
      } else {
        TakePastChunk(c.line.Text(), c.data, CRLF + tail, k);
        CutAfterChunk(c, tail, k - n);
        TruncatedChunks(cs[1..], last, after, if k < n + 2 then 0 else k - (n + 2));
      }
    }
  }

  lemma TruncatedLast(last: SizeLine, after: bytes, k: nat)
    requires last.Announces(0) && k <= |last.Text() + (CRLF + after)|
    ensures Dechunked((last.Text() + (CRLF + after))[..k]) == []
  {
    var n := |last.Text()| + 2;
    if k < n {
      SizeLineHasNoLineEnd(last, 0);
      CutBeforeLineEnd(last.Text(), after, k);
    } else {
      LastChunkStep(last, after[..k - n]);
      assert (last.Text() + (CRLF + after))[..k] == last.Text() + (CRLF + after[..k - n]);
    }
  }

  lemma CutInChunk(c: Chunk, rest: bytes, k: nat)
    requires c.Valid() && k < |c.line.Text()| + 2 + |c.data|
    ensures Dechunked((c.line.Text() + (CRLF + (c.data + rest)))[..k]) == []
  {
    var line := c.line.Text();
    var s := line + (CRLF + (c.data + rest));
    if k < |line| + 2 {
      SizeLineHasNoLineEnd(c.line, |c.data|);
      CutBeforeLineEnd(line, c.data + rest, k);
    } else {
      var d := c.data[..k - (|line| + 2)];
      assert s[..k] == line + (CRLF + d);
      SizeLineStep(c.line, |c.data|, d);
    }
  }

  lemma TakePastChunk(line: bytes, data: bytes, rest: bytes, k: nat)
    requires |line| + 2 + |data| <= k <= |line| + 2 + |data| + |rest|
    ensures (line + (CRLF + (data + rest)))[..k] == line + (CRLF + (data + rest[..k - (|line| + 2 + |data|)]))
  {
    TakeAppend(line, CRLF + (data + rest), k);
    TakeAppend(CRLF, data + rest, k - |line|);
    TakeAppend(data, rest, k - |line| - 2);
  }

  lemma CutAfterChunk(c: Chunk, tail: bytes, m: nat)
    requires c.Valid() && m <= 2 + |tail|
    ensures Dechunked(c.line.Text() + (CRLF + (c.data + (CRLF + tail)[..m])))
            == c.data + Dechunked(tail[..if m < 2 then 0 else m - 2])
  {
    ChunkStep(c, (CRLF + tail)[..m]);
    AfterCut(tail, m);
  }

  lemma AfterCut(tail: bytes, m: nat)
    requires m <= 2 + |tail|
    ensures Dechunked(SkipCrlf((CRLF + tail)[..m])) == Dechunked(tail[..if m < 2 then 0 else m - 2])
  {
    if m < 2 {
      ShortInputStops((CRLF + tail)[..m]);
      ShortInputStops(tail[..0]);
    } else {
      TakeAppend(CRLF, tail, m);
      SkipsCrlf(tail[..m - 2]);
    }
  }

  lemma SkipsCrlf(s: bytes)
    ensures SkipCrlf(CRLF + s) == s
  {
    Append(CRLF, s);
  }

  // ---------------------------------------------------------------- header block

  function LowerByte(b: byte): byte {
    if 65 <= b <= 90 then b + 32 else b
  }

  function Lower(s: bytes): (r: bytes)
    ensures |r| == |s|
  {
    seq(|s|, i requires 0 <= i < |s| => LowerByte(s[i]))
  }

  function DropCr(l: bytes): bytes {
    if l != [] && l[|l| - 1] == CR then l[..|l| - 1] else l
  }

  /** `str::lines`. */
  function Lines(s: bytes): seq<bytes>
    decreases |s|
  {
    var nl := Position(s, [LF]);
    if nl.None? then (if s == [] then [] else [s])
    else [DropCr(s[..nl.value])] + Lines(s[nl.value + 1..])
  }

  const TRANSFER_ENCODING := Ascii("transfer-encoding:")
  const CHUNKED := Ascii("chunked")

  predicate IsChunkedLine(l: bytes) {
    StartsWith(l, TRANSFER_ENCODING) && Contains(l, CHUNKED)
  }

  /** `header_is_chunked`.  Lossy decoding needs no model here: it leaves every ASCII byte, and no
      other, as an ASCII character, and the patterns and line ends are ASCII. */
  predicate HeaderIsChunked(head: bytes) {
    exists l | l in Lines(Lower(head)) :: IsChunkedLine(l)
  }

  /** Where the body starts: after the first blank line, or at 0 when there is none. */
  function BodyStart(buf: bytes): (n: nat)
    ensures n <= |buf|
  {
    var h := Position(buf, HEADER_END);
    if h.None? then 0 else h.value + 4
  }

  /** `decoded_body`. */
  function DecodedBody(buf: bytes): bytes {
    var split := BodyStart(buf);
    if HeaderIsChunked(buf[..split]) then Dechunked(buf[split..]) else buf[split..]
  }

  /** The body of any message: what follows the first CR LF CR LF, or all of it where there is none; and as its chunks
      decode if a line before that declares the chunked coding. */
  lemma DecodedBodyIs(buf: bytes)
    ensures var p := Position(buf, [13, 10, 13, 10]);
            var n := if p.None? then 0 else p.value + 4;
            && n <= |buf| && BodyStart(buf) == n
            && ((exists l :: l in Lines(buf[..n]) && DeclaresCoding(l)) ==> DecodedBody(buf) == Dechunked(buf[n..]))
            && (!(exists l :: l in Lines(buf[..n]) && DeclaresCoding(l)) ==> DecodedBody(buf) == buf[n..])
  {
    HeaderIsChunkedIff(buf[..BodyStart(buf)]);
  }

  // ---------------------------------------------------------------- printed messages

  /** A start line or field line: not empty, and free of CR and LF (sections 2 and 5 of RFC 9112). */
  predicate IsLine(l: bytes) {
    l != [] && CR !in l && LF !in l
  }

  predicate AreLines(lines: seq<bytes>) {
    forall l | l in lines :: IsLine(l)
  }

  /** The header section: every line with its line end, then a blank line. */
  function Head(lines: seq<bytes>): (r: bytes)
    ensures |r| >= 2
  {
    if lines == [] then CRLF else lines[0] + (CRLF + Head(lines[1..]))
  }

  /** The same byte, or the other case of the same ASCII letter. */
  predicate SameLetter(a: byte, b: byte) {
    || a == b
    || ('A' as int <= a <= 'Z' as int && b == a + ('a' as int - 'A' as int))
    || ('A' as int <= b <= 'Z' as int && a == b + ('a' as int - 'A' as int))
  }

  /** `s` holds `word` at `i`, in any case of letters. */
  predicate SpelledAt(s: bytes, word: string, i: nat) {
    i + |word| <= |s| && forall k | 0 <= k < |word| :: SameLetter(s[i + k], (word[k] as int) % 256)
  }

  /** A field line that declares the chunked coding, in any case of letters. */
  ghost predicate DeclaresCoding(l: bytes) {
    SpelledAt(l, "transfer-encoding:", 0) && exists i: nat :: SpelledAt(l, "chunked", i)
  }

  /** Some line declares `Transfer-Encoding: chunked`, in any case of letters. */
  predicate DeclaresChunked(lines: seq<bytes>) {
    exists l | l in lines :: IsChunkedLine(Lower(l))
  }

  lemma LowerSpells(s: bytes, word: string, i: nat)
    requires forall k | 0 <= k < |word| :: word[k] as int < 128 && !('A' <= word[k] <= 'Z')
    ensures OccursAt(Lower(s), Ascii(word), i) <==> SpelledAt(s, word, i)
  {
    var low, w := Lower(s), Ascii(word);
    if i + |word| <= |s| {
      forall k | 0 <= k < |word| ensures low[i + k] == w[k] <==> SameLetter(s[i + k], (word[k] as int) % 256) {
      }
      if OccursAt(low, w, i) {
        forall k | 0 <= k < |word| ensures low[i + k] == w[k] {
          assert low[i..i + |w|][k] == low[i + k];
        }
      }
      if forall k | 0 <= k < |word| :: low[i + k] == w[k] {
        assert low[i..i + |w|] == w;
      }
      if SpelledAt(s, word, i) {
        assert forall k | 0 <= k < |word| :: low[i + k] == w[k];
      }
    }
  }

  /** What the test on a line says, in any case of letters. */
  lemma ChunkedLineIff(l: bytes)
    ensures IsChunkedLine(Lower(l)) <==> DeclaresCoding(l)
  {
    var low := Lower(l);
    LowerSpells(l, "transfer-encoding:", 0);
    assert StartsWith(low, TRANSFER_ENCODING) <==> OccursAt(low, TRANSFER_ENCODING, 0);
    forall i: nat ensures OccursAt(low, CHUNKED, i) <==> SpelledAt(l, "chunked", i) {
      LowerSpells(l, "chunked", i);
    }
    if Position(low, CHUNKED).Some? {
      assert SpelledAt(l, "chunked", Position(low, CHUNKED).value);
    }
  }

  /** The header section is its first line, a line end, and the rest. */
  lemma HeadSplit(lines: seq<bytes>, body: bytes)
    requires lines != []
    ensures Head(lines) + body == lines[0] + (CRLF + (Head(lines[1..]) + body))
    ensures |Head(lines)| == |lines[0]| + 2 + |Head(lines[1..])|
  {
    Assoc(lines[0], CRLF + Head(lines[1..]), body);
    Assoc(CRLF, Head(lines[1..]), body);
  }

  lemma HeadStart(lines: seq<bytes>, body: bytes)
    requires lines != [] && IsLine(lines[0])
    ensures (Head(lines) + body)[0] == lines[0][0] != CR
  {
    HeadSplit(lines, body);
    assert lines[0][0] in lines[0];
  }

  lemma LinesTail(lines: seq<bytes>)
    requires lines != [] && AreLines(lines)
    ensures IsLine(lines[0]) && AreLines(lines[1..]) && (lines[1..] != [] ==> IsLine(lines[1..][0]))
  {
    assert lines[0] in lines;
    if lines[1..] != [] {
      assert lines[1] in lines;
    }
  }

  lemma HeaderEndOfOne(l: bytes, rest: seq<bytes>, body: bytes, text: bytes)
    requires IsLine(l) && rest == [] && text == l + (CRLF + (Head(rest) + body))
    ensures Position(text, HEADER_END) == Some(|l|) && |Head(rest)| == 2
  {
    LastLineEnd(l, body);
  }

  /** One more line in front moves the end of the header section by its length. */
  lemma HeaderEndMoves(l: bytes, rest: seq<bytes>, body: bytes, text: bytes)
    requires IsLine(l) && rest != [] && IsLine(rest[0]) && |Head(rest)| >= 4
    requires Position(Head(rest) + body, HEADER_END) == Some(|Head(rest)| - 4)
    requires text == l + (CRLF + (Head(rest) + body))
    ensures Position(text, HEADER_END) == Some(|l| + 2 + |Head(rest)| - 4)
  {
    HeadStart(rest, body);
    ShiftedHeaderEnd(l, Head(rest) + body, |Head(rest)| - 4);
  }

  /** The first blank line is the end of the header section, whatever the body holds. */
  lemma {:induction false} HeaderEndFound(lines: seq<bytes>, body: bytes)
    requires lines != [] && AreLines(lines)
    ensures |Head(lines)| >= 4
    ensures Position(Head(lines) + body, HEADER_END) == Some(|Head(lines)| - 4)
  {
    LinesTail(lines);
    HeadSplit(lines, body);
    if lines[1..] == [] {
      HeaderEndOfOne(lines[0], lines[1..], body, Head(lines) + body);
    } else {
      HeaderEndFound(lines[1..], body);
      HeaderEndMoves(lines[0], lines[1..], body, Head(lines) + body);
    }
  }

  lemma LastLineEnd(l: bytes, body: bytes)
    requires IsLine(l)
    ensures Position(l + (CRLF + (CRLF + body)), HEADER_END) == Some(|l|)
  {
    var s := l + (CRLF + (CRLF + body));
    HeaderEndAt(s, |l|);
    forall j | 0 <= j < |l| ensures !OccursAt(s, HEADER_END, j) {
      HeaderEndAt(s, j);
      assert s[j] in l;
    }
    PositionIs(s, HEADER_END, |l|);
  }

  lemma ShiftedHeaderEnd(l: bytes, rest: bytes, at: nat)
    requires IsLine(l) && rest != [] && rest[0] != CR
    requires Position(rest, HEADER_END) == Some(at)
    ensures Position(l + (CRLF + rest), HEADER_END) == Some(|l| + 2 + at)
  {
    var s, n := l + (CRLF + rest), |l| + 2;
    HeaderEndAt(s, n + at);
    HeaderEndAt(rest, at);
    forall j | 0 <= j < n + at ensures !OccursAt(s, HEADER_END, j) {
      HeaderEndAt(s, j);
      if j < |l| {
        assert s[j] in l;
      } else if j >= n {
        HeaderEndAt(rest, j - n);
      }
    }
    PositionIs(s, HEADER_END, n + at);
  }

  function LowerAll(lines: seq<bytes>): (r: seq<bytes>)
    ensures |r| == |lines|
  {
    seq(|lines|, i requires 0 <= i < |lines| => Lower(lines[i]))
  }

  lemma {:induction false} LowerHead(lines: seq<bytes>)
    ensures Lower(Head(lines)) == Head(LowerAll(lines))
  {
    if lines != [] {
      LowerHead(lines[1..]);
      assert LowerAll(lines)[1..] == LowerAll(lines[1..]);
    }
  }

  lemma FirstOfLines(l: bytes, t: bytes)
    requires LF !in l && CR !in l
    ensures Lines(l + (CRLF + t)) == [l] + Lines(t)
  {
    var s, r := l + (CRLF + t), l + [CR];
    assert s == r + ([LF] + t) by {
      Assoc(l, [CR], [LF] + t);
      Assoc([CR], [LF], t);
    }
    LineFeedFound(r, t);
    Append(r, [LF] + t);
    SplitAtLineEnd(l, t);
    assert DropCr(r) == l;
  }

  lemma {:induction false} LinesOfHead(lines: seq<bytes>)
    requires AreLines(lines)
    ensures Lines(Head(lines)) == lines + [[]]
  {
    if lines == [] {
      assert [] + (CRLF + []) == CRLF;
      FirstOfLines([], []);
      assert Lines([]) == [];
    } else {
      assert lines[0] in lines;
      LinesOfHead(lines[1..]);
      FirstOfLines(lines[0], Head(lines[1..]));
      assert lines == [lines[0]] + lines[1..];
    }
  }

  lemma LineFeedFound(l: bytes, t: bytes)
    requires LF !in l
    ensures Position(l + ([LF] + t), [LF]) == Some(|l|)
  {
    var s := l + ([LF] + t);
    assert s[|l|..|l| + 1] == [LF];
    forall j | 0 <= j < |l| ensures !OccursAt(s, [LF], j) {
      assert s[j] in l;
      assert s[j..j + 1] == [s[j]];
    }
    PositionIs(s, [LF], |l|);
  }

  lemma LowerAllAreLines(lines: seq<bytes>)
    requires AreLines(lines)
    ensures AreLines(LowerAll(lines))
  {
    var low := LowerAll(lines);
    forall l | l in low ensures IsLine(l) {
      var i :| 0 <= i < |low| && low[i] == l;
      assert lines[i] in lines;
      LowerLine(lines[i]);
    }
  }

  /** What the header test looks at is the lines in lower case, and an empty one. */
  lemma LinesOfLoweredHead(lines: seq<bytes>)
    requires AreLines(lines)
    ensures Lines(Lower(Head(lines))) == LowerAll(lines) + [[]]
  {
    LowerHead(lines);
    LowerAllAreLines(lines);
    LinesOfHead(LowerAll(lines));
  }

  lemma ChunkedLineSeen(lines: seq<bytes>)
    requires AreLines(lines) && DeclaresChunked(lines)
    ensures HeaderIsChunked(Head(lines))
  {
    LinesOfLoweredHead(lines);
    var l :| l in lines && IsChunkedLine(Lower(l));
    var i :| 0 <= i < |lines| && lines[i] == l;
    assert (LowerAll(lines) + [[]])[i] == Lower(l);
  }

  lemma SeenLineChunked(lines: seq<bytes>)
    requires AreLines(lines) && HeaderIsChunked(Head(lines))
    ensures DeclaresChunked(lines)
  {
    LinesOfLoweredHead(lines);
    var low := LowerAll(lines);
    var l :| l in low + [[]] && IsChunkedLine(l);
    assert l != [] by { assert |TRANSFER_ENCODING| == 18; }
    var i :| 0 <= i < |low| && low[i] == l;
    assert lines[i] in lines;
  }

  /** The test on the header block is the test on its lines. */
  lemma ChunkedHead(lines: seq<bytes>)
    requires AreLines(lines)
    ensures HeaderIsChunked(Head(lines)) <==> DeclaresChunked(lines)
  {
    if DeclaresChunked(lines) {
      ChunkedLineSeen(lines);
    }
    if HeaderIsChunked(Head(lines)) {
      SeenLineChunked(lines);
    }
  }

  /** A printed header section is taken for chunked exactly if some line of it starts with "transfer-encoding:" and
      holds "chunked", in any case of letters. */
  lemma ChunkedHeadIff(lines: seq<bytes>)
    requires AreLines(lines)
    ensures DeclaresChunked(lines) <==> exists l :: l in lines && DeclaresCoding(l)
    ensures HeaderIsChunked(Head(lines)) <==> exists l :: l in lines && DeclaresCoding(l)
  {
    ChunkedHead(lines);
    forall l | l in lines ensures IsChunkedLine(Lower(l)) <==> DeclaresCoding(l) {
      ChunkedLineIff(l);
    }
  }

  lemma LowerKeepsLineEnds(s: bytes)
    ensures Position(Lower(s), [LF]) == Position(s, [LF])
  {
    var low := Lower(s);
    forall i: nat ensures OccursAt(low, [LF], i) <==> OccursAt(s, [LF], i) {
      if i < |s| {
        assert s[i..i + 1] == [s[i]] && low[i..i + 1] == [low[i]];
      }
    }
    if Position(s, [LF]).Some? {
      PositionIs(low, [LF], Position(s, [LF]).value);
    }
  }

  lemma LowerParts(s: bytes, n: nat)
    requires n < |s|
    ensures Lower(s)[n + 1..] == Lower(s[n + 1..]) && DropCr(Lower(s)[..n]) == Lower(DropCr(s[..n]))
  {
    assert Lower(s)[..n] == Lower(s[..n]);
  }

  lemma {:induction false} LowerLines(s: bytes)
    ensures Lines(Lower(s)) == LowerAll(Lines(s))
    decreases |s|
  {
    LowerKeepsLineEnds(s);
    var nl := Position(s, [LF]);
    if nl.Some? {
      var n := nl.value;
      LowerParts(s, n);
      LowerLines(s[n + 1..]);
      assert Lines(s)[1..] == Lines(s[n + 1..]);
    }
  }

  /** On any header bytes: the test holds exactly if a line declares the chunked coding, in any case of letters. */
  lemma HeaderIsChunkedIff(head: bytes)
    ensures HeaderIsChunked(head) <==> exists l :: l in Lines(head) && DeclaresCoding(l)
  {
    LowerLines(head);
    var lines, low := Lines(head), LowerAll(Lines(head));
    if HeaderIsChunked(head) {
      var l :| l in low && IsChunkedLine(l);
      var i :| 0 <= i < |low| && low[i] == l;
      ChunkedLineIff(lines[i]);
      assert lines[i] in lines;
    }
    if exists l :: l in lines && DeclaresCoding(l) {
      var l :| l in lines && DeclaresCoding(l);
      var i :| 0 <= i < |lines| && lines[i] == l;
      ChunkedLineIff(l);
      assert low[i] in low;
    }
  }

  /** `str::lines`, line by line: a line ends at a line feed, less one carriage return before it; a last line without
      a line feed is kept whole, if there is any of it. */
  lemma LinesAre(l: bytes, t: bytes)
    requires '\n' as int !in l
    ensures Lines([]) == [] && (l != [] ==> Lines(l) == [l])
    ensures Lines(l + ([10] + t)) == [if l != [] && l[|l| - 1] == 13 then l[..|l| - 1] else l] + Lines(t)
  {
    LineFeedFound(l, t);
    Append(l, [LF] + t);
    Cons(LF, t);
    assert (l + ([LF] + t))[|l| + 1..] == t;
  }

  lemma LowerLine(l: bytes)
    requires IsLine(l)
    ensures IsLine(Lower(l))
  {
    forall i | 0 <= i < |l| ensures Lower(l)[i] != CR && Lower(l)[i] != LF {
      assert l[i] in l;
    }
  }

  /** Decoding a printed message that is not chunked gives its body. */
  lemma IdentityBody(lines: seq<bytes>, body: bytes)
    requires lines != [] && AreLines(lines) && !DeclaresChunked(lines)
    ensures DecodedBody(Head(lines) + body) == body
  {
    HeaderEndFound(lines, body);
    ChunkedHead(lines);
    var s := Head(lines) + body;
    assert s[..|Head(lines)|] == Head(lines) && s[|Head(lines)|..] == body;
  }

  /** Decoding a printed chunked message gives its payload. */
  lemma ChunkedBody(lines: seq<bytes>, cs: seq<Chunk>, last: SizeLine, after: bytes)
    requires lines != [] && AreLines(lines) && DeclaresChunked(lines)
    requires ValidChunks(cs) && last.Announces(0)
    ensures DecodedBody(Head(lines) + Chunked(cs, last, after)) == Payload(cs)
  {
    var body := Chunked(cs, last, after);
    HeaderEndFound(lines, body);
    ChunkedHead(lines);
    var s := Head(lines) + body;
    assert s[..|Head(lines)|] == Head(lines) && s[|Head(lines)|..] == body;
    ChunkedRoundTrip(cs, last, after);
  }

  // ---------------------------------------------------------------- start lines

  /** What precedes the first CR or LF. */
  function FirstLine(s: bytes): bytes {
    if s == [] || s[0] == CR || s[0] == LF then [] else [s[0]] + FirstLine(s[1..])
  }

  /** The longest prefix without a whitespace character. */
  function TakeWord(s: bytes): (w: bytes)
    ensures w <= s
  {
    if s == [] || SpacePrefix(s) > 0 then [] else [s[0]] + TakeWord(s[1..])
  }

  /** `split_whitespace`'s first word, and what follows it. */
  function NextWord(s: bytes): (bytes, bytes) {
    var t := TrimStart(s);
    var w := TakeWord(t);
    (w, t[|w|..])
  }

  /** `request_line`. */
  function RequestLine(buf: bytes): (bytes, bytes) {
    var first := NextWord(FirstLine(buf));
    (first.0, NextWord(first.1).0)
  }

  /** `str::parse::<u16>`. */
  function ParseU16(s: bytes): Option<nat> {
    var d := if s != [] && s[0] == PLUS then s[1..] else s;
    if d == [] then None
    else
      var v := Json.ParseDigits(d, 0);
      if v.rest != [] || v.value >= 65536 then None else Some(v.value)
  }

  predicate AreDigits(s: bytes) {
    forall b | b in s :: '0' as int <= b <= '9' as int
  }

  function Digits(s: bytes): (d: seq<nat>)
    requires AreDigits(s)
    ensures |d| == |s|
  {
    if s == [] then []
    else
      assert s[0] in s && forall b | b in s[1..] :: b in s;
      [s[0] - '0' as int] + Digits(s[1..])
  }

  lemma TenMore(acc: nat, d: nat, p: nat)
    ensures (acc * 10 + d) * p == acc * (10 * p) + d * p
  {
  }

  /** Reading digits gives their value in base 10. */
  lemma {:induction false} ParseDigitsIs(s: bytes, acc: nat, rest: bytes)
    requires AreDigits(s) && (rest != [] ==> !AreDigits([rest[0]]))
    ensures Json.ParseDigits(s + rest, acc) == Json.Parsed(acc * Pow(10, |s|) + PlaceValue(10, Digits(s)), rest)
  {
    if s == [] {
      assert s + rest == rest;
      assert rest != [] ==> !Json.IsDigit(rest[0]);
    } else {
      var d := s[0] - '0' as int;
      assert s[0] in s && forall b | b in s[1..] :: b in s;
      assert (s + rest)[1..] == s[1..] + rest;
      ParseDigitsIs(s[1..], acc * 10 + d, rest);
      assert Digits(s)[1..] == Digits(s[1..]);
      TenMore(acc, d, Pow(10, |s| - 1));
    }
  }

  lemma {:induction false} ParseDigitsAll(s: bytes, acc: nat)
    ensures Json.ParseDigits(s, acc).rest == [] <==> AreDigits(s)
  {
    if s != [] {
      assert s[0] in s && (forall b | b in s :: b == s[0] || b in s[1..]) && forall b | b in s[1..] :: b in s;
      if Json.IsDigit(s[0]) {
        ParseDigitsAll(s[1..], acc * 10 + (s[0] - 48));
        assert AreDigits(s) <==> AreDigits(s[1..]);
      }
    }
  }

  /** Which texts are read as a status: an optional plus sign and decimal digits below 2^16. */
  lemma ParseU16Iff(s: bytes, v: nat)
    ensures var d := if s != [] && s[0] == '+' as int then s[1..] else s;
            ParseU16(s) == Some(v) <==> d != [] && AreDigits(d) && v == PlaceValue(10, Digits(d)) < 0x1_0000
  {
    var d := if s != [] && s[0] == PLUS then s[1..] else s;
    ParseDigitsAll(d, 0);
    if AreDigits(d) {
      ParseDigitsIs(d, 0, []);
      assert d + [] == d;
    }
  }

  /** A printed number is decimal digits with that value, and has no leading zero. */
  lemma PrintNatSpells(n: nat)
    ensures var d := Json.PrintNat(n);
            d != [] && AreDigits(d) && PlaceValue(10, Digits(d)) == n && (d[0] == '0' as int <==> n == 0)
  {
    var d := Json.PrintNat(n);
    PrintNatIsDigits(n);
    Json.DigitsRoundTrip(n, []);
    assert d + [] == d;
    ParseDigitsIs(d, 0, []);
  }

  /** `status_code`. */
  function StatusCode(buf: bytes): (r: nat)
    ensures r < 65536
  {
    var c := ParseU16(RequestLine(buf).1);
    if c.None? then 0 else c.value
  }

  /** A word of a start line: printing ASCII, not empty. */
  predicate IsWord(w: bytes) {
    w != [] && forall b | b in w :: IsGraphic(b)
  }

  lemma {:induction false} FirstLineIs(l: bytes, t: bytes)
    requires CR !in l && LF !in l && t != [] && t[0] == CR
    ensures FirstLine(l + t) == l
  {
    if l == [] {
      assert l + t == t;
    } else {
      assert (l + t)[1..] == l[1..] + t;
      FirstLineIs(l[1..], t);
    }
  }

  lemma {:induction false} TakeWordIs(w: bytes, t: bytes)
    requires forall b | b in w :: IsGraphic(b)
    requires t == [] || t[0] == SP
    ensures TakeWord(w + t) == w
  {
    if w == [] {
      assert w + t == t;
    } else {
      assert w[0] in w;
      assert (w + t)[1..] == w[1..] + t;
      TakeWordIs(w[1..], t);
    }
  }

  lemma NextWordIs(w: bytes, t: bytes)
    requires IsWord(w) && (t == [] || t[0] == SP)
    ensures NextWord(w + t) == (w, t)
    ensures NextWord([SP] + (w + t)) == (w, t)
  {
    assert w[0] in w;
    assert SpacePrefix(w + t) == 0;
    TakeWordIs(w, t);
    assert SpacePrefix([SP]) == 1;
    assert IsWhitespace([SP]);
    TrimStartDropsWhitespace([SP], w + t);
    assert (w + t)[|w|..] == t;
  }

  /** A zero or printing byte: no whitespace character starts with it. */
  predicate IsInk(b: byte) {
    b == 0 || IsGraphic(b)
  }

  /** A word runs at least as far as such bytes do. */
  lemma {:induction false} TakeWordCovers(s: bytes, n: nat)
    requires n <= |s| && forall i | 0 <= i < n :: IsInk(s[i])
    ensures n <= |TakeWord(s)|
  {
    if n > 0 {
      TakeWordCovers(s[1..], n - 1);
    }
  }

  /** `a SP b SP c`: a request line or a status line. */
  function StartLine(a: bytes, b: bytes, c: bytes): bytes {
    a + ([SP] + (b + ([SP] + c)))
  }

  /** The first two words of a start line are read back, whatever follows its line end. */
  lemma StartLineWords(a: bytes, b: bytes, c: bytes, t: bytes)
    requires IsWord(a) && IsWord(b) && CR !in c && LF !in c && t != [] && t[0] == CR
    ensures RequestLine(StartLine(a, b, c) + t) == (a, b)
  {
    assert CR !in a && LF !in a && CR !in b && LF !in b;
    FirstLineIs(StartLine(a, b, c), t);
    NextWordIs(a, [SP] + (b + ([SP] + c)));
    NextWordIs(b, [SP] + c);
  }

  /** The first two words of a line are read whatever whitespace, Unicode's included, stands around them, and whether
      it ends with CR, LF or the input. */
  lemma WordsRead(w0: bytes, a: bytes, w1: bytes, b: bytes, w2: bytes, t: bytes)
    requires IsWhitespace(w0) && IsWhitespace(w1) && w1 != [] && IsWhitespace(w2)
    requires IsWord(a) && IsWord(b) && (forall x | x in w0 + w1 + w2 :: x != 13 && x != 10)
    requires t == [] || t[0] == 13 || t[0] == 10
    ensures RequestLine(w0 + (a + (w1 + (b + w2))) + t) == (a, b)
  {
    var l := w0 + (a + (w1 + (b + w2)));
    assert CR !in a && LF !in a && CR !in b && LF !in b;
    forall x | x in l ensures x != CR && x != LF {
      assert x in w0 || x in a || x in w1 || x in b || x in w2;
      assert x in w0 || x in w1 || x in w2 ==> x in w0 + w1 + w2;
    }
    FirstLineEnds(l, t);
    WordAfterSpace(w0, a, w1 + (b + w2));
    WordAfterSpace(w1, b, w2);
    if w2 == [] {
      assert b + w2 == b;
    }
  }

  lemma {:induction false} FirstLineEnds(l: bytes, t: bytes)
    requires CR !in l && LF !in l && (t == [] || t[0] == CR || t[0] == LF)
    ensures FirstLine(l + t) == l
  {
    if l == [] {
      assert l + t == t;
    } else {
      assert (l + t)[1..] == l[1..] + t;
      FirstLineEnds(l[1..], t);
    }
  }

  lemma {:induction false} WordBeforeSpace(w: bytes, t: bytes)
    requires forall b | b in w :: IsGraphic(b)
    requires t == [] || SpacePrefix(t) > 0
    ensures TakeWord(w + t) == w
  {
    if w == [] {
      assert w + t == t;
    } else {
      assert w[0] in w;
      assert (w + t)[1..] == w[1..] + t;
      WordBeforeSpace(w[1..], t);
    }
  }

  lemma WordAfterSpace(space: bytes, w: bytes, t: bytes)
    requires IsWhitespace(space) && IsWord(w) && (t == [] || SpacePrefix(t) > 0)
    ensures NextWord(space + (w + t)) == (w, t)
  {
    assert w[0] in w;
    assert SpacePrefix(w + t) == 0;
    TrimStartDropsWhitespace(space, w + t);
    WordBeforeSpace(w, t);
    Append(w, t);
  }

  /** Method and path of a printed request are read back. */
  lemma RequestLineRoundTrip(a: bytes, b: bytes, c: bytes, fields: seq<bytes>, body: bytes)
    requires IsWord(a) && IsWord(b) && CR !in c && LF !in c
    ensures RequestLine(Head([StartLine(a, b, c)] + fields) + body) == (a, b)
  {
    var l := StartLine(a, b, c);
    var t := (CRLF + Head(fields)) + body;
    assert ([l] + fields)[1..] == fields;
    Assoc(l, CRLF + Head(fields), body);
    StartLineWords(a, b, c, t);
  }

  /** The status of a printed response is read back: every u16. */
  lemma StatusRoundTrip(version: bytes, status: nat, reason: bytes, fields: seq<bytes>, body: bytes)
    requires IsWord(version) && status < 65536 && CR !in reason && LF !in reason
    ensures StatusCode(Head([StartLine(version, Json.PrintNat(status), reason)] + fields) + body) == status
  {
    var s := Json.PrintNat(status);
    PrintNatIsDigits(status);
    assert s[0] in s;
    RequestLineRoundTrip(version, s, reason, fields, body);
    Json.DigitsRoundTrip(status, []);
    assert s + [] == s;
  }

  lemma {:induction false} PrintNatIsDigits(n: nat)
    ensures Json.PrintNat(n) != [] && forall b | b in Json.PrintNat(n) :: Json.IsDigit(b)
  {
    if n >= 10 {
      PrintNatIsDigits(n / 10);
    }
  }

  /** A start line is never mistaken for a chunked field: its first word has no colon. */
  lemma StartLineNotChunked(a: bytes, b: bytes, c: bytes)
    requires 58 !in a
    ensures !IsChunkedLine(Lower(StartLine(a, b, c)))
  {
    var l := StartLine(a, b, c);
    var low := Lower(l);
    assert |TRANSFER_ENCODING| == 18 && TRANSFER_ENCODING[17] == 58;
    if |a| <= 17 {
      assert low[|a|] == SP;
      assert TRANSFER_ENCODING[|a|] == ("transfer-encoding:"[|a|] as int) % 256 != SP;
      assert |low| >= 18 ==> low[..18][|a|] == SP;
    } else {
      assert l[17] in a;
      assert |low| >= 18 ==> low[..18][17] == LowerByte(l[17]);
    }
  }
}
