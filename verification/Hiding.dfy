/** What hiding bytes of a message does to the body decoded from it: any bytes, any ranges.  Hidden bytes are read
    as zeros, in the header section too, so hiding can move the split, join lines, or break chunk sizes. */
module Hiding {
  import opened Bytes
  import opened Http
  import opened Disclosure

  // ---------------------------------------------------------------- chunks, by position

  /** Where a chunk's data starts, how long it is, and where the rest of the body starts. */
  datatype Cut = Cut(start: nat, size: nat, after: nat)

  /** The first chunk of a body.  How a line announces a size plays no part here, so it is any `sz`. */
  function CutAt(sz: bytes -> nat, body: bytes): (r: Option<Cut>)
    ensures r.Some? ==>
              2 <= r.value.start && 0 < r.value.size && r.value.start + r.value.size <= r.value.after <= |body|
  {
    var nl := Position(body, CRLF);
    if nl.None? then None
    else
      var start, size := nl.value + 2, sz(body[..nl.value]);
      var end := start + size;
      if size == 0 || |body| < end then None
      else Some(Cut(start, size, if OccursAt(body, CRLF, end) then end + 2 else end))
  }

  lemma SliceOfTail(s: bytes, a: nat, n: nat)
    requires a + n <= |s|
    ensures s[a..][..n] == s[a..a + n] && s[a..][n..] == s[a + n..]
  {
  }

  lemma SkipCrlfAt(s: bytes, k: nat)
    requires k <= |s|
    ensures SkipCrlf(s[k..]) == if OccursAt(s, CRLF, k) then s[k + 2..] else s[k..]
  {
    if k + 2 <= |s| {
      SliceOfTail(s, k, 2);
    }
  }

  lemma CutIsEmit(body: bytes, c: Cut)
    requires CutAt(ChunkSize, body) == Some(c)
    ensures NextChunk(body) == Emit(body[c.start..c.start + c.size], body[c.after..])
  {
    SliceOfTail(body, c.start, c.size);
    SkipCrlfAt(body, c.start + c.size);
    NextChunkIs(body, c.start - 2, c.size);
  }

  /** One turn of the decoder's loop, by position. */
  lemma CutIsNextChunk(body: bytes)
    ensures var c := CutAt(ChunkSize, body);
            NextChunk(body) ==
            if c.None? then Stop
            else Emit(body[c.value.start..c.value.start + c.value.size], body[c.value.after..])
  {
    var c := CutAt(ChunkSize, body);
    if c.Some? {
      CutIsEmit(body, c.value);
    }
  }

  function DechunkedBy(sz: bytes -> nat, body: bytes): bytes
    decreases |body|
  {
    match CutAt(sz, body)
    case None => []
    case Some(c) => body[c.start..c.start + c.size] + DechunkedBy(sz, body[c.after..])
  }

  lemma {:induction false} DechunkedIs(body: bytes)
    ensures DechunkedBy(ChunkSize, body) == Dechunked(body)
    decreases |body|
  {
    var c := CutAt(ChunkSize, body);
    CutIsNextChunk(body);
    if c.Some? {
      DechunkedIs(body[c.value.after..]);
    }
  }

  /** `total` positions: a window of `size` from `start`, and from `after` on what `more` says. */
  function WindowThen(total: nat, c: Cut, more: seq<bool>): (mask: seq<bool>)
    requires c.after + |more| == total
    ensures |mask| == total
  {
    seq(total, i requires 0 <= i < total => if i < c.after then c.start <= i < c.start + c.size else more[i - c.after])
  }

  lemma WindowThenParts(total: nat, c: Cut, more: seq<bool>)
    requires c.after + |more| == total
    ensures var mask := WindowThen(total, c, more);
            mask[c.after..] == more && IsWindow(mask[..c.after], c.start, c.size)
  {
  }

  /** Which positions of a chunked body are in the data of a chunk that is emitted. */
  function DataMask(sz: bytes -> nat, body: bytes): (mask: seq<bool>)
    ensures |mask| == |body|
    decreases |body|
  {
    match CutAt(sz, body)
    case None => seq(|body|, i => false)
    case Some(c) => WindowThen(|body|, c, DataMask(sz, body[c.after..]))
  }

  /** Both bodies split into chunks at the same places. */
  predicate SameChunks(sz: bytes -> nat, s: bytes, v: bytes)
    decreases |s|
  {
    && |v| == |s| && CutAt(sz, v) == CutAt(sz, s)
    && match CutAt(sz, s)
       case None => true
       case Some(c) => SameChunks(sz, s[c.after..], v[c.after..])
  }

  // ---------------------------------------------------------------- agreeing on a mask

  predicate IsWindow(mask: seq<bool>, start: nat, n: nat) {
    forall i | 0 <= i < |mask| :: mask[i] <==> start <= i < start + n
  }

  /** The texts agree where the mask says `on`. */
  predicate SameWhere(mask: seq<bool>, on: bool, s: bytes, v: bytes) {
    |mask| == |s| == |v| && forall i | 0 <= i < |s| && mask[i] == on :: v[i] == s[i]
  }

  lemma SameWhereSplits(mask: seq<bool>, on: bool, s: bytes, v: bytes, k: nat)
    requires |mask| == |s| == |v| && k <= |s|
    ensures SameWhere(mask, on, s, v) <==>
            SameWhere(mask[..k], on, s[..k], v[..k]) && SameWhere(mask[k..], on, s[k..], v[k..])
  {
    if SameWhere(mask[..k], on, s[..k], v[..k]) && SameWhere(mask[k..], on, s[k..], v[k..]) {
      forall i | 0 <= i < |s| && mask[i] == on ensures v[i] == s[i] {
        if i < k {
          assert mask[..k][i] == on && v[..k][i] == s[..k][i];
        } else {
          assert mask[k..][i - k] == on && v[k..][i - k] == s[k..][i - k];
        }
      }
    }
  }

  lemma SameInWindow(mask: seq<bool>, s: bytes, v: bytes, start: nat, n: nat)
    requires |mask| == |s| == |v| && IsWindow(mask, start, n) && start + n <= |s|
    ensures SameWhere(mask, true, s, v) <==> v[start..start + n] == s[start..start + n]
  {
    if v[start..start + n] == s[start..start + n] {
      forall i | 0 <= i < |s| && mask[i] ensures v[i] == s[i] {
        assert v[start..start + n][i - start] == s[start..start + n][i - start];
      }
    }
  }

  lemma WindowOfPrefix(s: bytes, k: nat, start: nat, n: nat)
    requires start + n <= k <= |s|
    ensures s[..k][start..start + n] == s[start..start + n]
  {
  }

  /** Agreement on a window, and on what is said of the rest. */
  lemma SameParts(mask: seq<bool>, s: bytes, v: bytes, c: Cut)
    requires |mask| == |s| == |v| && c.start + c.size <= c.after <= |s|
    requires IsWindow(mask[..c.after], c.start, c.size)
    ensures SameWhere(mask, true, s, v) <==>
            && v[c.start..c.start + c.size] == s[c.start..c.start + c.size]
            && SameWhere(mask[c.after..], true, s[c.after..], v[c.after..])
  {
    SameWhereSplits(mask, true, s, v, c.after);
    SameInWindow(mask[..c.after], s[..c.after], v[..c.after], c.start, c.size);
    WindowOfPrefix(s, c.after, c.start, c.size);
    WindowOfPrefix(v, c.after, c.start, c.size);
  }

  lemma AppendSame(a: bytes, b: bytes, x: bytes, y: bytes)
    requires |a| == |b|
    ensures b + y == a + x <==> b == a && y == x
  {
    Append(a, x);
    Append(b, y);
  }

  // ---------------------------------------------------------------- data and framing

  /** The bodies agree on the data of the first one's chunks. */
  predicate SameData(sz: bytes -> nat, s: bytes, v: bytes) {
    SameWhere(DataMask(sz, s), true, s, v)
  }

  /** The bodies agree outside that data: on size lines, line ends, and all that comes after the last chunk. */
  predicate SameFraming(sz: bytes -> nat, s: bytes, v: bytes) {
    SameWhere(DataMask(sz, s), false, s, v)
  }

  /** One chunk's data and what decodes from the rest agree exactly if the texts agree where the mask says. */
  lemma SameJoined(mask: seq<bool>, more: seq<bool>, s: bytes, v: bytes, c: Cut, dx: bytes, dy: bytes)
    requires |mask| == |s| == |v| && c.start + c.size <= c.after <= |s|
    requires mask[c.after..] == more && IsWindow(mask[..c.after], c.start, c.size)
    requires dy == dx <==> SameWhere(more, true, s[c.after..], v[c.after..])
    ensures v[c.start..c.start + c.size] + dy == s[c.start..c.start + c.size] + dx <==> SameWhere(mask, true, s, v)
  {
    SameParts(mask, s, v, c);
    AppendSame(s[c.start..c.start + c.size], v[c.start..c.start + c.size], dx, dy);
  }

  lemma MaskParts(sz: bytes -> nat, body: bytes, c: Cut)
    requires CutAt(sz, body) == Some(c)
    ensures var mask := DataMask(sz, body);
            mask[c.after..] == DataMask(sz, body[c.after..]) && IsWindow(mask[..c.after], c.start, c.size)
  {
    WindowThenParts(|body|, c, DataMask(sz, body[c.after..]));
  }

  lemma PayloadParts(sz: bytes -> nat, body: bytes, c: Cut)
    requires CutAt(sz, body) == Some(c)
    ensures DechunkedBy(sz, body) == body[c.start..c.start + c.size] + DechunkedBy(sz, body[c.after..])
  {
  }

  lemma SamePayloadStep(sz: bytes -> nat, s: bytes, v: bytes, c: Cut)
    requires |v| == |s| && CutAt(sz, s) == CutAt(sz, v) == Some(c)
    requires DechunkedBy(sz, v[c.after..]) == DechunkedBy(sz, s[c.after..]) <==>
             SameWhere(DataMask(sz, s[c.after..]), true, s[c.after..], v[c.after..])
    ensures DechunkedBy(sz, v) == DechunkedBy(sz, s) <==> SameWhere(DataMask(sz, s), true, s, v)
  {
    MaskParts(sz, s, c);
    PayloadParts(sz, s, c);
    PayloadParts(sz, v, c);
    SameJoined(DataMask(sz, s), DataMask(sz, s[c.after..]), s, v, c,
               DechunkedBy(sz, s[c.after..]), DechunkedBy(sz, v[c.after..]));
  }

  /** Bodies with the same chunks have the same payload exactly if they agree on the data. */
  lemma {:induction false} SameDataSamePayload(sz: bytes -> nat, s: bytes, v: bytes)
    requires SameChunks(sz, s, v)
    ensures DechunkedBy(sz, v) == DechunkedBy(sz, s) <==> SameData(sz, s, v)
    decreases |s|
  {
    match CutAt(sz, s)
    case None =>
    case Some(c) =>
      SameDataSamePayload(sz, s[c.after..], v[c.after..]);
      SamePayloadStep(sz, s, v, c);
  }

  /** The first two bytes of a body are never data. */
  lemma MaskStart(sz: bytes -> nat, body: bytes, i: nat)
    requires i < 2 && i < |body|
    ensures !DataMask(sz, body)[i]
  {
  }

  lemma FirstLineKept(s: bytes, v: bytes, nl: nat)
    requires |v| == |s| && Position(s, CRLF) == Some(nl) && forall i | 0 <= i < nl + 2 :: v[i] == s[i]
    ensures Position(v, CRLF) == Some(nl) && v[..nl] == s[..nl]
  {
    SameWindow(v, s, CRLF, nl);
    forall j | 0 <= j < nl ensures !OccursAt(v, CRLF, j) {
      SameWindow(v, s, CRLF, j);
    }
    PositionIs(v, CRLF, nl);
  }

  /** The bytes before a chunk's data, and the two after it, are framing. */
  lemma FramingAround(sz: bytes -> nat, s: bytes, v: bytes, c: Cut, i: nat)
    requires SameFraming(sz, s, v) && CutAt(sz, s) == Some(c) && i < |s|
    requires i < c.start || c.start + c.size <= i < c.start + c.size + 2
    ensures v[i] == s[i]
  {
    if i >= c.after {
      MaskStart(sz, s[c.after..], i - c.after);
    }
    assert !DataMask(sz, s)[i];
  }

  lemma FramingKeepsCut(sz: bytes -> nat, s: bytes, v: bytes, c: Cut)
    requires SameFraming(sz, s, v) && CutAt(sz, s) == Some(c)
    ensures CutAt(sz, v) == Some(c)
  {
    var end := c.start + c.size;
    forall i | 0 <= i < |s| && (i < c.start || end <= i < end + 2) ensures v[i] == s[i] {
      FramingAround(sz, s, v, c, i);
    }
    FirstLineKept(s, v, c.start - 2);
    SameWindow(v, s, CRLF, end);
  }

  lemma NoDataSame(sz: bytes -> nat, s: bytes, v: bytes)
    requires SameFraming(sz, s, v) && CutAt(sz, s) == None
    ensures v == s
  {
    assert forall i | 0 <= i < |s| :: !DataMask(sz, s)[i];
  }

  /** Bodies that agree outside the data split into the same chunks. */
  lemma {:induction false} SameFramingSameChunks(sz: bytes -> nat, s: bytes, v: bytes)
    requires SameFraming(sz, s, v)
    ensures SameChunks(sz, s, v)
    decreases |s|
  {
    match CutAt(sz, s)
    case None => NoDataSame(sz, s, v);
    case Some(c) =>
      FramingKeepsCut(sz, s, v, c);
      MaskParts(sz, s, c);
      SameWhereSplits(DataMask(sz, s), false, s, v, c.after);
      SameFramingSameChunks(sz, s[c.after..], v[c.after..]);
  }

  // ---------------------------------------------------------------- the split

  lemma HiddenOccurs(s: bytes, ranges: Ranges, pat: bytes, i: nat)
    requires 0 !in pat && OccursAt(View(s, ranges), pat, i)
    ensures OccursAt(s, pat, i) && forall k | i <= k < i + |pat| :: Reveals(ranges, k)
  {
    var v := View(s, ranges);
    OccursElementwise(v, pat, i);
    OccursElementwise(s, pat, i);
    forall k | i <= k < i + |pat| ensures v[k] == s[k] && Reveals(ranges, k) && s[k] == pat[k - i] {
      assert v[i + (k - i)] == pat[k - i] && pat[k - i] in pat;
    }
  }

  lemma ShownOccurs(s: bytes, ranges: Ranges, pat: bytes, i: nat)
    requires OccursAt(s, pat, i) && forall k | i <= k < i + |pat| :: Reveals(ranges, k)
    ensures OccursAt(View(s, ranges), pat, i)
  {
    SameWindow(View(s, ranges), s, pat, i);
  }

  /** The split stays where it was exactly if its blank line is shown; otherwise it is lost, or found further on. */
  lemma SplitKeptIff(s: bytes, ranges: Ranges)
    ensures var n, m := BodyStart(s), BodyStart(View(s, ranges));
            && (m == n <==> n == 0 || forall k | n - 4 <= k < n :: Reveals(ranges, k))
            && (m != n ==> 0 < n && (m == 0 || n < m))
  {
    var v, h := View(s, ranges), Position(s, HEADER_END);
    assert 0 !in HEADER_END;
    var g := Position(v, HEADER_END);
    if g.Some? {
      HiddenOccurs(s, ranges, HEADER_END, g.value);
    }
    if h.Some? && forall k | h.value <= k < h.value + 4 :: Reveals(ranges, k) {
      ShownOccurs(s, ranges, HEADER_END, h.value);
    }
  }

  // ---------------------------------------------------------------- the decoded body

  /** From position `from` on, no byte is hidden but zeros. */
  predicate OnlyZerosHidden(s: bytes, ranges: Ranges, from: nat) {
    forall i | from <= i < |s| && !Reveals(ranges, i) :: s[i] == 0
  }

  /** From position `from` on, no byte of chunk data is hidden but zeros. */
  predicate OnlyZeroDataHidden(s: bytes, ranges: Ranges, from: nat)
    requires from <= |s|
  {
    forall i | from <= i < |s| && DataMask(ChunkSize, s[from..])[i - from] && !Reveals(ranges, i) :: s[i] == 0
  }

  /** What it takes for hiding to leave the decoded body as it was: the split stays, the framing is read as it is,
      and no content is hidden but zeros. */
  predicate KeepsBody(s: bytes, ranges: Ranges) {
    var v, n := View(s, ranges), BodyStart(s);
    && BodyStart(v) == n
    && (|s| == n ||
        if HeaderIsChunked(s[..n])
        then HeaderIsChunked(v[..n]) && SameChunks(ChunkSize, s[n..], v[n..]) && OnlyZeroDataHidden(s, ranges, n)
        else !HeaderIsChunked(v[..n]) && OnlyZerosHidden(s, ranges, n))
  }

  /** The chunks of a chunked message, if it is one, are still told apart. */
  predicate KeepsFraming(s: bytes, ranges: Ranges) {
    var v, n := View(s, ranges), BodyStart(s);
    HeaderIsChunked(s[..n]) ==> BodyStart(v) == n && SameChunks(ChunkSize, s[n..], v[n..])
  }

  /** Chunks are told apart if the split and all bytes outside their data are shown. */
  lemma ShownFraming(s: bytes, ranges: Ranges)
    requires BodyStart(View(s, ranges)) == BodyStart(s)
    requires var n := BodyStart(s);
             forall i | n <= i < |s| && !DataMask(ChunkSize, s[n..])[i - n] :: Reveals(ranges, i)
    ensures KeepsFraming(s, ranges)
  {
    var n := BodyStart(s);
    var x, y := s[n..], View(s, ranges)[n..];
    var mask := DataMask(ChunkSize, x);
    forall i | 0 <= i < |x| && mask[i] == false ensures y[i] == x[i] {
      assert !mask[(n + i) - n];
    }
    SameFramingSameChunks(ChunkSize, x, y);
  }

  lemma TailShown(s: bytes, ranges: Ranges, from: nat)
    requires from <= |s|
    ensures View(s, ranges)[from..] == s[from..] <==> OnlyZerosHidden(s, ranges, from)
  {
    var v := View(s, ranges);
    if v[from..] == s[from..] {
      forall i | from <= i < |s| && !Reveals(ranges, i) ensures s[i] == 0 {
        assert v[from..][i - from] == s[from..][i - from];
      }
    }
  }

  lemma DataShown(s: bytes, ranges: Ranges, from: nat)
    requires from <= |s|
    ensures SameData(ChunkSize, s[from..], View(s, ranges)[from..]) <==> OnlyZeroDataHidden(s, ranges, from)
  {
    var x, y := s[from..], View(s, ranges)[from..];
    var mask := DataMask(ChunkSize, x);
    if SameWhere(mask, true, x, y) {
      forall i | from <= i < |s| && mask[i - from] && !Reveals(ranges, i) ensures s[i] == 0 {
        assert y[i - from] == x[i - from];
      }
    }
    if OnlyZeroDataHidden(s, ranges, from) {
      forall i | 0 <= i < |x| && mask[i] == true ensures y[i] == x[i] {
        assert mask[(from + i) - from];
      }
    }
  }

  lemma DechunkShrinks(body: bytes)
    requires body != []
    ensures |Dechunked(body)| < |body|
  {
    DechunkBound(body);
    if ChunkCount(body) == 0 {
      assert NextChunk(body).Stop?;
    }
  }

  lemma DecodedBound(s: bytes)
    ensures |DecodedBody(s)| <= |s| - BodyStart(s)
    ensures BodyStart(s) == 0 ==> DecodedBody(s) == s
  {
    DechunkBound(s[BodyStart(s)..]);
    assert s[..0] == [] && s[0..] == s;
    assert Lines(Lower([])) == [];
  }

  /** A body whose split has moved is another body, unless the message is chunked. */
  lemma MovedSplit(s: bytes, ranges: Ranges)
    requires !HeaderIsChunked(s[..BodyStart(s)]) && BodyStart(View(s, ranges)) != BodyStart(s)
    ensures DecodedBody(View(s, ranges)) != DecodedBody(s)
  {
    SplitKeptIff(s, ranges);
    DecodedBound(s);
    DecodedBound(View(s, ranges));
  }

  /** For every message and all ranges: if hiding keeps the framing, which it does by itself where the message is not
      chunked, then it leaves the decoded body as it was exactly if it keeps the body in the sense above. */
  lemma BodyKeptIff(s: bytes, ranges: Ranges)
    ensures KeepsBody(s, ranges) ==> DecodedBody(View(s, ranges)) == DecodedBody(s)
    ensures KeepsFraming(s, ranges) ==> (DecodedBody(View(s, ranges)) == DecodedBody(s) <==> KeepsBody(s, ranges))
  {
    var v, n := View(s, ranges), BodyStart(s);
    if BodyStart(v) != n {
      if !HeaderIsChunked(s[..n]) {
        MovedSplit(s, ranges);
      }
    } else if |s| == n {
      assert s[n..] == [] && v[n..] == [];
    } else if HeaderIsChunked(s[..n]) {
      ChunkedKept(s, ranges);
    } else {
      PlainKept(s, ranges);
    }
  }

  lemma PlainKept(s: bytes, ranges: Ranges)
    requires BodyStart(View(s, ranges)) == BodyStart(s) < |s| && !HeaderIsChunked(s[..BodyStart(s)])
    ensures DecodedBody(View(s, ranges)) == DecodedBody(s) <==> KeepsBody(s, ranges)
  {
    var v, n := View(s, ranges), BodyStart(s);
    DechunkShrinks(v[n..]);
    TailShown(s, ranges, n);
  }

  lemma ChunkedKept(s: bytes, ranges: Ranges)
    requires BodyStart(View(s, ranges)) == BodyStart(s) < |s| && HeaderIsChunked(s[..BodyStart(s)])
    ensures KeepsBody(s, ranges) ==> DecodedBody(View(s, ranges)) == DecodedBody(s)
    ensures KeepsFraming(s, ranges) ==> (DecodedBody(View(s, ranges)) == DecodedBody(s) <==> KeepsBody(s, ranges))
  {
    var v, n := View(s, ranges), BodyStart(s);
    DechunkShrinks(s[n..]);
    DataShown(s, ranges, n);
    if SameChunks(ChunkSize, s[n..], v[n..]) {
      DechunkedIs(s[n..]);
      DechunkedIs(v[n..]);
      SameDataSamePayload(ChunkSize, s[n..], v[n..]);
    }
  }

  // ---------------------------------------------------------------- what is shown in full, and what is redacted

  lemma {:induction false} SameChunksItself(sz: bytes -> nat, s: bytes)
    ensures SameChunks(sz, s, s)
    decreases |s|
  {
    match CutAt(sz, s)
    case None =>
    case Some(c) => SameChunksItself(sz, s[c.after..]);
  }

  /** A message shown in full keeps its body. */
  lemma ShownKeepsBody(s: bytes, ranges: Ranges)
    requires RevealsAll(s, ranges)
    ensures KeepsBody(s, ranges)
  {
    ViewIsWhole(s, ranges);
    SameChunksItself(ChunkSize, s[BodyStart(s)..]);
  }

  /** A request with its key redacted keeps its body exactly if it has none, or the declaration that it is chunked,
      where there is one, is still seen. */
  lemma RedactionKeepsBodyIff(sent: bytes, key: bytes)
    requires IsKey(key) && KeyInHead(sent, key)
    ensures var ranges := RevealedRanges(sent, Some(key)).value;
            var v, n := View(sent, ranges), BodyStart(sent);
            KeepsBody(sent, ranges) <==>
            sent[n..] == [] || (HeaderIsChunked(sent[..n]) ==> HeaderIsChunked(v[..n]))
  {
    var ranges := RevealedRanges(sent, Some(key)).value;
    var v, n := View(sent, ranges), BodyStart(sent);
    RedactionKeepsSplit(sent, key);
    RedactionKeepsBody(sent, key);
    BodyKeptIff(sent, ranges);
    SameChunksItself(ChunkSize, sent[n..]);
  }
}
