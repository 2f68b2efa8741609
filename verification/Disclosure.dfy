/** What the reseller, as prover, lets the notary see of the request: everything but the first
    occurrence of its api key.  Bytes that are not revealed reach the notary as zero. */
module Disclosure {
  import opened Bytes
  import opened Http

  /** Half-open ranges of revealed positions. */
  type Ranges = seq<(nat, nat)>

  predicate Reveals(ranges: Ranges, i: nat) {
    exists r | r in ranges :: r.0 <= i < r.1
  }

  /** The transcript as the notary sees it. */
  function View(sent: bytes, ranges: Ranges): (v: bytes)
    ensures |v| == |sent|
  {
    seq(|sent|, i requires 0 <= i < |sent| => if Reveals(ranges, i) then sent[i] else 0)
  }

  /** The ranges revealed for a key; `None` when the proof must be abandoned. */
  function RevealedRanges(sent: bytes, key: Option<bytes>): Option<Ranges> {
    match key
    case None => Some([(0, |sent|)])
    case Some(k) =>
      var pos := Position(sent, k);
      if pos.None? then None else Some([(0, pos.value), (pos.value + |k|, |sent|)])
  }

  /** The disclosure being built for one transcript. */
  class ProveConfigBuilder {
    const sent: bytes
    var revealed: Ranges

    constructor (sent: bytes)
      ensures this.sent == sent && revealed == []
    {
      this.sent := sent;
      revealed := [];
    }

    method RevealSent(lo: nat, hi: nat)
      requires lo <= hi <= |sent|
      modifies this
      ensures revealed == old(revealed) + [(lo, hi)]
    {
      revealed := revealed + [(lo, hi)];
    }

    /** The disclosure step of `run_prover`: fails closed, revealing nothing, when a key is set and
        cannot be found. */
    method DiscloseRequest(key: Option<bytes>) returns (ok: bool)
      requires key.Some? ==> key.value != []
      modifies this
      ensures ok <==> RevealedRanges(sent, key).Some?
      ensures revealed == old(revealed) + if ok then RevealedRanges(sent, key).value else []
    {
      match key {
        case Some(k) =>
          var pos := Position(sent, k);
          if pos.None? {
            return false;
          }
          RevealSent(0, pos.value);
          RevealSent(pos.value + |k|, |sent|);
        case None =>
          RevealSent(0, |sent|);
      }
      return true;
    }
  }

  // ---------------------------------------------------------------- what is hidden

  /** The two ranges are disjoint and leave out exactly one window of the key's length: the key's
      first occurrence. */
  lemma RangesPartition(sent: bytes, key: bytes, i: nat)
    requires key != [] && Position(sent, key).Some? && i < |sent|
    ensures var pos := Position(sent, key).value;
            var r := RevealedRanges(sent, Some(key)).value;
            && |r| == 2 && !(r[0].0 <= i < r[0].1 && r[1].0 <= i < r[1].1)
            && (Reveals(r, i) <==> !(pos <= i < pos + |key|))
            && View(sent, r)[i] == if pos <= i < pos + |key| then 0 else sent[i]
  {
    var r := RevealedRanges(sent, Some(key)).value;
    assert r[0] in r && r[1] in r;
  }

  lemma OccursElementwise(s: bytes, pat: bytes, i: nat)
    ensures OccursAt(s, pat, i) <==> i + |pat| <= |s| && forall k | 0 <= k < |pat| :: s[i + k] == pat[k]
  {
    if i + |pat| <= |s| {
      if OccursAt(s, pat, i) {
        forall k | 0 <= k < |pat| ensures s[i + k] == pat[k] {
          assert s[i..i + |pat|][k] == s[i + k];
        }
      }
      if forall k | 0 <= k < |pat| :: s[i + k] == pat[k] {
        assert s[i..i + |pat|] == pat;
      }
    }
  }

  lemma SameWindow(a: bytes, b: bytes, pat: bytes, q: nat)
    requires |a| == |b| && forall i | q <= i < q + |pat| && i < |a| :: a[i] == b[i]
    ensures OccursAt(a, pat, q) <==> OccursAt(b, pat, q)
  {
    if q + |pat| <= |a| {
      assert a[q..q + |pat|] == b[q..q + |pat|];
    }
  }

  /** A key without zero bytes is still visible at `q` exactly if it stands there clear of the hidden
      window. */
  lemma VisibleOccurrence(sent: bytes, key: bytes, q: nat)
    requires key != [] && 0 !in key && Position(sent, key).Some?
    ensures var pos := Position(sent, key).value;
            OccursAt(View(sent, RevealedRanges(sent, Some(key)).value), key, q) <==>
            OccursAt(sent, key, q) && pos + |key| <= q
  {
    var pos, n := Position(sent, key).value, |key|;
    var v := View(sent, RevealedRanges(sent, Some(key)).value);
    forall i | 0 <= i < |sent| ensures v[i] == if pos <= i < pos + n then 0 else sent[i] {
      RangesPartition(sent, key, i);
    }
    if pos + n <= q || q + n <= pos {
      SameWindow(v, sent, key, q);
    } else {
      OccursElementwise(v, key, q);
      var k := if q < pos then pos - q else 0;
      assert key[k] in key;
      assert q + n <= |sent| ==> v[q + k] == 0;
    }
  }

  lemma OccursInSuffix(s: bytes, pat: bytes, from: nat, q: nat)
    requires from <= |s|
    ensures OccursAt(s[from..], pat, q) <==> OccursAt(s, pat, from + q)
  {
    if from + q + |pat| <= |s| {
      assert s[from..][q..q + |pat|] == s[from + q..from + q + |pat|];
    }
  }

  /** The notary's view holds the key exactly if the key occurs again after its first occurrence. */
  lemma KeyHiddenIffOnce(sent: bytes, key: bytes)
    requires key != [] && 0 !in key && Position(sent, key).Some?
    ensures var pos := Position(sent, key).value;
            Contains(View(sent, RevealedRanges(sent, Some(key)).value), key) <==>
            Contains(sent[pos + |key|..], key)
  {
    if Contains(View(sent, RevealedRanges(sent, Some(key)).value), key) {
      SeenKeyOccursAgain(sent, key);
    }
    if Contains(sent[Position(sent, key).value + |key|..], key) {
      SecondKeyIsSeen(sent, key);
    }
  }

  lemma SeenKeyOccursAgain(sent: bytes, key: bytes)
    requires key != [] && 0 !in key && Position(sent, key).Some?
    requires Contains(View(sent, RevealedRanges(sent, Some(key)).value), key)
    ensures Contains(sent[Position(sent, key).value + |key|..], key)
  {
    var q := Position(View(sent, RevealedRanges(sent, Some(key)).value), key).value;
    VisibleOccurrence(sent, key, q);
    SecondOccurrence(sent, key, Position(sent, key).value + |key|, q);
  }

  lemma SecondKeyIsSeen(sent: bytes, key: bytes)
    requires key != [] && 0 !in key && Position(sent, key).Some?
    requires Contains(sent[Position(sent, key).value + |key|..], key)
    ensures Contains(View(sent, RevealedRanges(sent, Some(key)).value), key)
  {
    var from := Position(sent, key).value + |key|;
    var q := Position(sent[from..], key).value;
    OccursInSuffix(sent, key, from, q);
    VisibleOccurrence(sent, key, from + q);
    ContainsAt(View(sent, RevealedRanges(sent, Some(key)).value), key, from + q);
  }

  lemma ContainsAt(s: bytes, pat: bytes, q: nat)
    requires OccursAt(s, pat, q)
    ensures Contains(s, pat)
  {
  }

  lemma SecondOccurrence(s: bytes, pat: bytes, from: nat, q: nat)
    requires from <= |s| && from <= q && OccursAt(s, pat, q)
    ensures Contains(s[from..], pat)
  {
    OccursInSuffix(s, pat, from, q - from);
    ContainsAt(s[from..], pat, q - from);
  }

  // ---------------------------------------------------------------- redaction against parsing

  /** `b` is `a` with some bytes, none of them CR or LF, replaced by zero. */
  predicate Masked(a: bytes, b: bytes) {
    && |a| == |b|
    && forall i | 0 <= i < |a| :: b[i] == a[i] || (b[i] == 0 && a[i] != CR && a[i] != LF)
  }

  /** Patterns made of CR and LF stay exactly where they were. */
  lemma MaskedLineEnds(a: bytes, b: bytes, pat: bytes)
    requires Masked(a, b) && forall c | c in pat :: c == CR || c == LF
    ensures Position(a, pat) == Position(b, pat)
  {
    forall i: nat ensures OccursAt(a, pat, i) <==> OccursAt(b, pat, i) {
      OccursElementwise(a, pat, i);
      OccursElementwise(b, pat, i);
      assert forall k | 0 <= k < |pat| :: pat[k] in pat;
    }
    if Position(a, pat).Some? {
      PositionIs(b, pat, Position(a, pat).value);
    }
  }

  /** A pattern without zeros that is seen after masking was there before. */
  lemma MaskedOccurs(a: bytes, b: bytes, pat: bytes, i: nat)
    requires Masked(a, b) && 0 !in pat && OccursAt(b, pat, i)
    ensures OccursAt(a, pat, i)
  {
    OccursElementwise(a, pat, i);
    OccursElementwise(b, pat, i);
    assert forall k | 0 <= k < |pat| :: pat[k] in pat;
  }

  lemma PatternsHaveNoZero()
    ensures 0 !in TRANSFER_ENCODING && 0 !in CHUNKED
  {
    assert forall i | 0 <= i < |TRANSFER_ENCODING| :: TRANSFER_ENCODING[i] == ("transfer-encoding:"[i] as int) % 256;
    assert forall i | 0 <= i < |CHUNKED| :: CHUNKED[i] == ("chunked"[i] as int) % 256;
  }

  lemma MaskedChunkedLine(a: bytes, b: bytes)
    requires Masked(a, b) && IsChunkedLine(b)
    ensures IsChunkedLine(a)
  {
    PatternsHaveNoZero();
    assert OccursAt(b, TRANSFER_ENCODING, 0);
    MaskedOccurs(a, b, TRANSFER_ENCODING, 0);
    MaskedOccurs(a, b, CHUNKED, Position(b, CHUNKED).value);
  }

  lemma MaskedParts(a: bytes, b: bytes, n: nat)
    requires Masked(a, b) && n < |a| && a[n] == b[n]
    ensures Masked(DropCr(a[..n]), DropCr(b[..n])) && Masked(a[n + 1..], b[n + 1..])
  {
  }

  lemma {:induction false} MaskedLines(a: bytes, b: bytes)
    requires Masked(a, b)
    ensures |Lines(a)| == |Lines(b)|
    ensures forall i | 0 <= i < |Lines(a)| :: Masked(Lines(a)[i], Lines(b)[i])
    decreases |a|
  {
    MaskedLineEnds(a, b, [LF]);
    var nl := Position(a, [LF]);
    if nl.Some? {
      var n := nl.value;
      assert a[n..n + 1][0] == b[n..n + 1][0] == LF;
      MaskedParts(a, b, n);
      MaskedLines(a[n + 1..], b[n + 1..]);
    }
  }

  /** Masking never makes a header block chunked that was not. */
  lemma MaskedHeader(a: bytes, b: bytes)
    requires Masked(a, b) && HeaderIsChunked(b)
    ensures HeaderIsChunked(a)
  {
    assert Masked(Lower(a), Lower(b));
    MaskedLines(Lower(a), Lower(b));
    var l :| l in Lines(Lower(b)) && IsChunkedLine(l);
    var i :| 0 <= i < |Lines(Lower(b))| && Lines(Lower(b))[i] == l;
    MaskedChunkedLine(Lines(Lower(a))[i], l);
  }

  predicate IsKey(key: bytes) {
    key != [] && CR !in key && LF !in key
  }

  lemma KeyWindow(sent: bytes, key: bytes, i: nat)
    requires Position(sent, key).Some?
    requires Position(sent, key).value <= i < Position(sent, key).value + |key|
    ensures sent[i] in key
  {
    var pos := Position(sent, key).value;
    assert sent[pos..pos + |key|][i - pos] == sent[i];
  }

  lemma ViewIsMasked(sent: bytes, key: bytes)
    requires IsKey(key) && Position(sent, key).Some?
    ensures Masked(sent, View(sent, RevealedRanges(sent, Some(key)).value))
  {
    var pos, v := Position(sent, key).value, View(sent, RevealedRanges(sent, Some(key)).value);
    forall i | 0 <= i < |sent| ensures v[i] == sent[i] || (v[i] == 0 && sent[i] != CR && sent[i] != LF) {
      RangesPartition(sent, key, i);
      if pos <= i < pos + |key| {
        KeyWindow(sent, key, i);
      }
    }
  }

  /** The key's first occurrence lies in the header section. */
  predicate KeyInHead(sent: bytes, key: bytes) {
    var h, p := Position(sent, HEADER_END), Position(sent, key);
    h.Some? && p.Some? && p.value < h.value
  }

  /** Hiding a key in the header section leaves the body where it was, byte for byte. */
  lemma RedactionKeepsSplit(sent: bytes, key: bytes)
    requires IsKey(key) && KeyInHead(sent, key)
    ensures var v := View(sent, RevealedRanges(sent, Some(key)).value);
            BodyStart(v) == BodyStart(sent) && v[BodyStart(v)..] == sent[BodyStart(sent)..]
  {
    var v := View(sent, RevealedRanges(sent, Some(key)).value);
    var pos, h := Position(sent, key).value, Position(sent, HEADER_END).value;
    ViewIsMasked(sent, key);
    MaskedLineEnds(sent, v, HEADER_END);
    HeaderEndAt(sent, h);
    if h < pos + |key| {
      KeyWindow(sent, key, h);
      assert false;
    }
    forall i | h + 4 <= i < |sent| ensures v[i] == sent[i] {
      RangesPartition(sent, key, i);
    }
  }

  lemma DechunkChangesBody(body: bytes)
    ensures Dechunked(body) == body <==> body == []
  {
    DechunkBound(body);
    ShortInputStops([]);
  }

  /** Redaction commutes with parsing unless it hides the declaration that the body is chunked: the
      body the notary digests is the body sent exactly if the body is empty or the declaration, where
      there is one, is still seen. */
  lemma RedactionKeepsBody(sent: bytes, key: bytes)
    requires IsKey(key) && KeyInHead(sent, key)
    ensures var v := View(sent, RevealedRanges(sent, Some(key)).value);
            var n := BodyStart(sent);
            DecodedBody(v) == DecodedBody(sent) <==>
            sent[n..] == [] || (HeaderIsChunked(sent[..n]) ==> HeaderIsChunked(v[..n]))
  {
    var v, n := View(sent, RevealedRanges(sent, Some(key)).value), BodyStart(sent);
    RedactionKeepsSplit(sent, key);
    ViewIsMasked(sent, key);
    if HeaderIsChunked(v[..n]) {
      MaskedHeader(sent[..n], v[..n]);
    }
    DechunkChangesBody(sent[n..]);
  }

  // ---------------------------------------------------------------- the condition is needed

  function Zeros(n: nat): (z: bytes)
    ensures |z| == n
  {
    seq(n, i => 0)
  }

  /** Revealing all but one window replaces the window by zeros. */
  lemma WindowView(a: bytes, mid: bytes, b: bytes)
    ensures var s := a + (mid + b);
            View(s, [(0, |a|), (|a| + |mid|, |s|)]) == a + (Zeros(|mid|) + b)
  {
    var s := a + (mid + b);
    var r := [(0, |a|), (|a| + |mid|, |s|)];
    assert r[0] in r && r[1] in r;
    forall i | 0 <= i < |s| ensures View(s, r)[i] == (a + (Zeros(|mid|) + b))[i] {
      assert Reveals(r, i) <==> !(|a| <= i < |a| + |mid|);
    }
  }

  lemma ViewOfSplit(a: bytes, key: bytes, b: bytes)
    requires key != [] && Position(a + (key + b), key) == Some(|a|)
    ensures View(a + (key + b), RevealedRanges(a + (key + b), Some(key)).value) == a + (Zeros(|key|) + b)
  {
    WindowView(a, key, b);
  }

  /** The lines' text, without the blank line that ends a header section. */
  function LinesText(lines: seq<bytes>): bytes {
    if lines == [] then [] else lines[0] + (CRLF + LinesText(lines[1..]))
  }

  lemma {:induction false} HeadAfterLines(before: seq<bytes>, after: seq<bytes>)
    ensures Head(before + after) == LinesText(before) + Head(after)
  {
    if before == [] {
      assert before + after == after;
      assert LinesText(before) + Head(after) == Head(after);
    } else {
      HeadAfterLines(before[1..], after);
      assert (before + after)[1..] == before[1..] + after;
      Assoc(before[0], CRLF + LinesText(before[1..]), Head(after));
      Assoc(CRLF, LinesText(before[1..]), Head(after));
    }
  }

  /** Lines with neither "k" nor "K" in them hold no part of the word "chunked" that could be found. */
  predicate NoK(s: bytes) {
    107 !in s && 75 !in s
  }

  lemma {:induction false} LinesTextNoK(lines: seq<bytes>)
    requires forall l | l in lines :: NoK(l)
    ensures 107 !in LinesText(lines)
  {
    if lines != [] {
      assert lines[0] in lines;
      LinesTextNoK(lines[1..]);
    }
  }

  lemma ChunkedLetters()
    ensures |CHUNKED| == 7 && CHUNKED[4] == 107 && forall i | 0 <= i < 4 :: CHUNKED[i] != 107
    ensures IsKey(CHUNKED)
  {
    forall i | 0 <= i < 7 ensures CHUNKED[i] == ("chunked"[i] as int) % 256 {
    }
  }

  /** After text without a "k" the word "chunked" is found where it is put. */
  lemma WordFound(p: bytes, rest: bytes)
    requires 107 !in p
    ensures Position(p + (CHUNKED + rest), CHUNKED) == Some(|p|)
  {
    var s := p + (CHUNKED + rest);
    ChunkedLetters();
    OccursInSuffix(s, CHUNKED, |p|, 0);
    Append(p, CHUNKED + rest);
    Append(CHUNKED, rest);
    forall j | 0 <= j < |p| ensures !OccursAt(s, CHUNKED, j) {
      OccursElementwise(s, CHUNKED, j);
      if j + 4 < |p| {
        assert s[j + 4] == p[j + 4];
      } else {
        assert s[j + 4] == CHUNKED[j + 4 - |p|];
      }
    }
    PositionIs(s, CHUNKED, |p|);
  }

  lemma NoKNotChunked(l: bytes)
    requires NoK(l)
    ensures !IsChunkedLine(Lower(l))
  {
    var low := Lower(l);
    ChunkedLetters();
    forall j: nat ensures !OccursAt(low, CHUNKED, j) {
      OccursElementwise(low, CHUNKED, j);
      if j + 7 <= |low| {
        assert l[j + 4] in l && low[j + 4] == LowerByte(l[j + 4]);
      }
    }
  }

  const TE_NAME := Ascii("transfer-encoding: ")

  /** The declaration, as sent and as the notary sees it. */
  const TE_LINE := TE_NAME + CHUNKED
  const HIDDEN_TE_LINE := TE_NAME + Zeros(7)

  lemma LowerCaseAscii(s: string)
    requires forall i | 0 <= i < |s| :: 32 <= s[i] as int < 127 && s[i] != 'k' && !('A' <= s[i] <= 'Z')
    ensures NoK(Ascii(s)) && CR !in Ascii(s) && LF !in Ascii(s) && Lower(Ascii(s)) == Ascii(s)
  {
  }

  lemma TeName()
    ensures |TE_NAME| == 19 && NoK(TE_NAME) && CR !in TE_NAME && LF !in TE_NAME
    ensures Lower(TE_NAME) == TE_NAME && TE_NAME[..18] == TRANSFER_ENCODING
  {
    LowerCaseAscii("transfer-encoding: ");
    assert "transfer-encoding: "[..18] == "transfer-encoding:";
  }

  lemma TeLineDeclares()
    ensures IsLine(TE_LINE) && IsChunkedLine(Lower(TE_LINE))
  {
    TeName();
    ChunkedLetters();
    Append(TE_NAME, CHUNKED);
    forall i | 0 <= i < 7 ensures LowerByte(CHUNKED[i]) == CHUNKED[i] {
      assert CHUNKED[i] == ("chunked"[i] as int) % 256;
    }
    assert Lower(TE_LINE) == TE_LINE by {
      assert forall i | 0 <= i < 19 :: TE_LINE[i] == TE_NAME[i] && Lower(TE_NAME)[i] == TE_NAME[i];
    }
    assert TE_LINE[..18] == TE_NAME[..18];
    assert TE_LINE[19..26] == CHUNKED;
    assert OccursAt(TE_LINE, CHUNKED, 19);
  }

  lemma HiddenTeLine()
    ensures IsLine(HIDDEN_TE_LINE) && NoK(HIDDEN_TE_LINE)
  {
    TeName();
  }

  /** Lines of a request whose `Transfer-Encoding` line stands between others, and the lines the notary sees
      instead. */
  function WithTe(before: seq<bytes>, after: seq<bytes>): seq<bytes> {
    before + ([TE_LINE] + after)
  }

  function WithoutTe(before: seq<bytes>, after: seq<bytes>): seq<bytes> {
    before + ([HIDDEN_TE_LINE] + after)
  }

  /** The whole family: lines without a "k", the declaration, then lines that declare nothing. */
  predicate HidesFraming(before: seq<bytes>, after: seq<bytes>) {
    && AreLines(before) && (forall l | l in before :: NoK(l))
    && AreLines(after) && !DeclaresChunked(after)
  }

  lemma FamilyLines(before: seq<bytes>, after: seq<bytes>)
    requires HidesFraming(before, after)
    ensures AreLines(WithTe(before, after)) && DeclaresChunked(WithTe(before, after))
    ensures AreLines(WithoutTe(before, after)) && !DeclaresChunked(WithoutTe(before, after))
  {
    TeLineDeclares();
    HiddenTeLine();
    NoKNotChunked(HIDDEN_TE_LINE);
    assert TE_LINE in WithTe(before, after);
    forall l | l in WithTe(before, after) ensures IsLine(l) {
      assert l in before || l == TE_LINE || l in after;
    }
    forall l | l in WithoutTe(before, after) ensures IsLine(l) && !IsChunkedLine(Lower(l)) {
      assert l in before || l == HIDDEN_TE_LINE || l in after;
      if l in before {
        NoKNotChunked(l);
      }
    }
  }

  lemma HeadAroundWord(before: seq<bytes>, word: bytes, after: seq<bytes>, body: bytes)
    ensures Head(before + ([TE_NAME + word] + after)) + body
            == (LinesText(before) + TE_NAME) + (word + (CRLF + (Head(after) + body)))
  {
    var text, tail := LinesText(before), CRLF + Head(after);
    HeadAfterLines(before, [TE_NAME + word] + after);
    assert ([TE_NAME + word] + after)[1..] == after;
    Assoc(text, (TE_NAME + word) + tail, body);
    Assoc(TE_NAME + word, tail, body);
    Assoc(CRLF, Head(after), body);
    Assoc(TE_NAME, word, tail + body);
    Assoc(text, TE_NAME, word + (tail + body));
  }

  lemma FamilyView(before: seq<bytes>, after: seq<bytes>, body: bytes)
    requires HidesFraming(before, after)
    ensures var sent := Head(WithTe(before, after)) + body;
            && RevealedRanges(sent, Some(CHUNKED)).Some?
            && View(sent, RevealedRanges(sent, Some(CHUNKED)).value) == Head(WithoutTe(before, after)) + body
  {
    var p, rest := LinesText(before) + TE_NAME, CRLF + (Head(after) + body);
    LinesTextNoK(before);
    TeName();
    ChunkedLetters();
    WordFound(p, rest);
    ViewOfSplit(p, CHUNKED, rest);
    HeadAroundWord(before, CHUNKED, after, body);
    HeadAroundWord(before, Zeros(7), after, body);
  }

  /** For every request of the family, whatever it sends, a key that is the word "chunked" makes the notary take
      the chunked framing for content: it decodes the wire form, which is never the body sent. */
  lemma RedactionHidesFraming(before: seq<bytes>, after: seq<bytes>, cs: seq<Chunk>, last: SizeLine, tail: bytes)
    requires HidesFraming(before, after) && ValidChunks(cs) && last.Announces(0)
    ensures var wire := Http.Chunked(cs, last, tail);
            var sent := Head(WithTe(before, after)) + wire;
            && IsKey(CHUNKED) && RevealedRanges(sent, Some(CHUNKED)).Some?
            && DecodedBody(sent) == Payload(cs)
            && DecodedBody(View(sent, RevealedRanges(sent, Some(CHUNKED)).value)) == wire != Payload(cs)
  {
    var wire := Http.Chunked(cs, last, tail);
    ChunkedLetters();
    FamilyLines(before, after);
    FamilyView(before, after, wire);
    ChunkedBody(WithTe(before, after), cs, last, tail);
    IdentityBody(WithoutTe(before, after), wire);
    ChunkedRoundTrip(cs, last, tail);
    DechunkChangesBody(wire);
    assert wire != [];
  }

  /** The lines the reseller always sends, here to its documented upstream, and the line that carries its key. */
  const RESELLER_LINES := [
    Ascii("POST /v1/messages HTTP/1.1"), Ascii("host: api.anthropic.com"), Ascii("content-type: application/json"),
    Ascii("accept: application/json"), Ascii("accept-encoding: identity"), Ascii("connection: close")]
  const KEY_LINE := Ascii("x-api-key: chunked")

  lemma AsciiLine(s: string)
    requires s != "" && forall i | 0 <= i < |s| :: 32 <= s[i] as int < 127 && s[i] != 'k' && s[i] != 'K'
    ensures IsLine(Ascii(s)) && NoK(Ascii(s))
  {
  }

  lemma ResellerFirstLines()
    ensures forall i | 0 <= i < 3 :: IsLine(RESELLER_LINES[i]) && NoK(RESELLER_LINES[i])
  {
    AsciiLine("POST /v1/messages HTTP/1.1");
    AsciiLine("host: api.anthropic.com");
    AsciiLine("content-type: application/json");
  }

  lemma ResellerLastLines()
    ensures forall i | 3 <= i < 6 :: IsLine(RESELLER_LINES[i]) && NoK(RESELLER_LINES[i])
  {
    AsciiLine("accept: application/json");
    AsciiLine("accept-encoding: identity");
    AsciiLine("connection: close");
  }

  lemma ResellerLines()
    ensures AreLines(RESELLER_LINES) && forall l | l in RESELLER_LINES :: NoK(l)
  {
    ResellerFirstLines();
    ResellerLastLines();
    assert forall l | l in RESELLER_LINES :: exists i | 0 <= i < 6 :: RESELLER_LINES[i] == l;
  }

  lemma KeyLine()
    ensures IsLine(KEY_LINE) && !IsChunkedLine(Lower(KEY_LINE)) && KEY_LINE[11..] == CHUNKED
  {
    forall i | 0 <= i < |KEY_LINE| ensures KEY_LINE[i] == ("x-api-key: chunked"[i] as int) % 256 {
    }
    assert TRANSFER_ENCODING[0] == 116 && Lower(KEY_LINE)[0] == 120;
  }

  /** A request that the reseller does send, with `transfer-encoding: chunked` among its configured headers and
      "chunked" as its key: the notary digests the wire form instead of the body. */
  lemma RedactionCanChangeBody(cs: seq<Chunk>, last: SizeLine, tail: bytes)
    requires ValidChunks(cs) && last.Announces(0)
    ensures var wire := Http.Chunked(cs, last, tail);
            var sent := Head(WithTe(RESELLER_LINES, [KEY_LINE])) + wire;
            && CarriesKey([KEY_LINE], CHUNKED) && RevealedRanges(sent, Some(CHUNKED)).Some?
            && DecodedBody(sent) == Payload(cs)
            && DecodedBody(View(sent, RevealedRanges(sent, Some(CHUNKED)).value)) == wire != Payload(cs)
  {
    ResellerLines();
    KeyLine();
    assert KEY_LINE in [KEY_LINE] && EndsWith(KEY_LINE, CHUNKED);
    RedactionHidesFraming(RESELLER_LINES, [KEY_LINE], cs, last, tail);
  }

  // ---------------------------------------------------------------- the reseller's request

  predicate EndsWith(s: bytes, p: bytes) {
    |p| <= |s| && s[|s| - |p|..] == p
  }

  /** Some line of the header section ends with the key. */
  predicate CarriesKey(lines: seq<bytes>, key: bytes) {
    exists l | l in lines :: EndsWith(l, key)
  }

  lemma SplitOccurs(a: bytes, pat: bytes, b: bytes)
    ensures OccursAt(a + (pat + b), pat, |a|)
  {
    Append(a, pat + b);
    Append(pat, b);
    OccursInSuffix(a + (pat + b), pat, |a|, 0);
  }

  lemma SuffixSplits(l: bytes, key: bytes, t: bytes)
    requires EndsWith(l, key)
    ensures l + t == l[..|l| - |key|] + (key + t)
  {
    var a := l[..|l| - |key|];
    assert l == a + key;
    Assoc(a, key, t);
  }

  lemma LaterLineSplits(l: bytes, a: bytes, tail: bytes)
    ensures l + (CRLF + (a + tail)) == (l + (CRLF + a)) + tail
  {
    Assoc(CRLF, a, tail);
    Assoc(l, CRLF + a, tail);
  }

  lemma {:induction false} KeyOccursInHead(lines: seq<bytes>, l: bytes, key: bytes, body: bytes)
    returns (a: bytes, b: bytes)
    requires l in lines && EndsWith(l, key)
    ensures Head(lines) + body == a + (key + b) && |a| + |key| + 4 <= |Head(lines)|
  {
    var first := lines[0];
    HeadSplit(lines, body);
    if l == first {
      b := CRLF + (Head(lines[1..]) + body);
      a := l[..|l| - |key|];
      SuffixSplits(l, key, b);
    } else {
      assert l in lines[1..];
      a, b := KeyOccursInHead(lines[1..], l, key, body);
      LaterLineSplits(first, a, key + b);
      a := first + (CRLF + a);
    }
  }

  /** For a printed request one of whose field lines carries the key, and which is not chunked, the
      body the notary decodes from its partial view is the body that was sent. */
  lemma RedactedRequestBody(lines: seq<bytes>, key: bytes, body: bytes)
    requires lines != [] && AreLines(lines) && !DeclaresChunked(lines)
    requires IsKey(key) && CarriesKey(lines, key)
    ensures RevealedRanges(Head(lines) + body, Some(key)).Some?
    ensures DecodedBody(View(Head(lines) + body, RevealedRanges(Head(lines) + body, Some(key)).value)) == body
  {
    var sent := Head(lines) + body;
    var l :| l in lines && EndsWith(l, key);
    var a, b := KeyOccursInHead(lines, l, key, body);
    SplitOccurs(a, key, b);
    HeaderEndFound(lines, body);
    assert Position(sent, key).Some? && Position(sent, key).value <= |a|;
    IdentityBody(lines, body);
    ChunkedHead(lines);
    assert sent[..|Head(lines)|] == Head(lines);
    RedactionKeepsBody(sent, key);
  }

  /** What the notary sees of a start line is a line of the same length. */
  lemma FirstLineOfView(start: bytes, t: bytes, v: bytes)
    requires CR !in start && LF !in start && t != [] && t[0] == CR && Masked(start + t, v)
    ensures FirstLine(v) == v[..|start|]
  {
    var l := v[..|start|];
    forall i | 0 <= i < |start| ensures l[i] != CR && l[i] != LF {
      assert (start + t)[i] == start[i] && start[i] in start;
    }
    assert v[|start|] == CR;
    assert v == l + v[|start|..];
    FirstLineIs(l, v[|start|..]);
  }

  /** A zero inside or just after a word that starts the text changes the word. */
  lemma ZeroSpoilsWord(l: bytes, w: bytes, k: nat)
    requires IsWord(w) && k <= |w| && k < |l| && l[k] == 0
    requires forall i | 0 <= i < k :: l[i] == w[i]
    ensures NextWord(l).0 != w && NextWord([SP] + l).0 != w
  {
    forall i | 0 <= i <= k ensures IsInk(l[i]) {
      assert i < k ==> w[i] in w;
    }
    assert SpacePrefix(l) == 0;
    assert IsWhitespace([SP]) by { assert SpacePrefix([SP]) == 1; }
    TrimStartDropsWhitespace([SP], l);
    TakeWordCovers(l, k + 1);
    assert TakeWord(l)[k] == 0;
    if k < |w| {
      assert w[k] in w;
    }
  }

  lemma SplitAfterWord(l: bytes, a: bytes)
    requires |a| < |l| && l[|a|] == SP && forall i | 0 <= i < |a| :: l[i] == a[i]
    ensures l == a + ([SP] + l[|a| + 1..])
  {
  }

  lemma StartLineAt(a: bytes, b: bytes, c: bytes)
    ensures var s := StartLine(a, b, c);
            && |s| == |a| + |b| + |c| + 2 && s[|a|] == s[|a| + |b| + 1] == SP
            && (forall i | 0 <= i < |a| :: s[i] == a[i])
            && (forall i | 0 <= i < |b| :: s[|a| + 1 + i] == b[i])
  {
  }

  /** Hidden up to the space after the path, method and path cannot both be read. */
  lemma KeyBeforeVersion(a: bytes, b: bytes, c: bytes, l: bytes, pos: nat)
    requires IsWord(a) && IsWord(b) && |l| == |StartLine(a, b, c)| && pos < |a| + |b| + 2 && l[pos] == 0
    requires forall i | 0 <= i < pos :: l[i] == StartLine(a, b, c)[i]
    ensures NextWord(l).0 != a || NextWord(NextWord(l).1).0 != b
  {
    var s := StartLine(a, b, c);
    StartLineAt(a, b, c);
    if pos <= |a| {
      ZeroSpoilsWord(l, a, pos);
    } else {
      var m := l[|a| + 1..];
      SplitAfterWord(l, a);
      NextWordIs(a, [SP] + m);
      forall i | 0 <= i < pos - (|a| + 1) ensures m[i] == b[i] {
        assert m[i] == s[|a| + 1 + i];
      }
      ZeroSpoilsWord(m, b, pos - (|a| + 1));
    }
  }

  /** Hidden from the version word on, method and path are read as they were sent. */
  lemma KeyAfterPath(a: bytes, b: bytes, c: bytes, l: bytes)
    requires IsWord(a) && IsWord(b) && |l| == |StartLine(a, b, c)|
    requires forall i | 0 <= i < |a| + |b| + 2 :: l[i] == StartLine(a, b, c)[i]
    ensures NextWord(l).0 == a && NextWord(NextWord(l).1).0 == b
  {
    var s, c' := StartLine(a, b, c), l[|a| + |b| + 2..];
    assert l == StartLine(a, b, c') by {
      forall i | 0 <= i < |l| ensures l[i] == StartLine(a, b, c')[i] {
        assert i < |a| + |b| + 2 ==> s[i] == StartLine(a, b, c')[i];
      }
    }
    NextWordIs(a, [SP] + (b + ([SP] + c')));
    NextWordIs(b, [SP] + c');
  }

  /** The notary reads method and path as they were sent exactly if the key first occurs after the path. */
  lemma RedactedRequestLine(a: bytes, b: bytes, c: bytes, t: bytes, key: bytes)
    requires IsWord(a) && IsWord(b) && CR !in c && LF !in c && t != [] && t[0] == CR
    requires IsKey(key) && Position(StartLine(a, b, c) + t, key).Some?
    ensures var sent := StartLine(a, b, c) + t;
            RequestLine(View(sent, RevealedRanges(sent, Some(key)).value)) == (a, b) <==>
            Position(sent, key).value >= |a| + |b| + 2
  {
    var start, sent := StartLine(a, b, c), StartLine(a, b, c) + t;
    var v, pos := View(sent, RevealedRanges(sent, Some(key)).value), Position(sent, key).value;
    assert CR !in a && LF !in a && CR !in b && LF !in b;
    ViewIsMasked(sent, key);
    FirstLineOfView(start, t, v);
    var l := v[..|start|];
    forall i | 0 <= i < |start| && i <= pos ensures l[i] == if i == pos then 0 else start[i] {
      RangesPartition(sent, key, i);
      assert sent[i] == start[i];
    }
    if pos < |a| + |b| + 2 {
      KeyBeforeVersion(a, b, c, l, pos);
    } else {
      forall i | 0 <= i < |a| + |b| + 2 ensures l[i] == start[i] {
      }
      KeyAfterPath(a, b, c, l);
    }
  }

  // ---------------------------------------------------------------- full disclosure

  predicate RevealsAll(s: bytes, ranges: Ranges) {
    forall i | 0 <= i < |s| :: Reveals(ranges, i)
  }

  /** A transcript is seen as it was exactly if no byte is hidden but zeros; so it is if none is. */
  lemma ViewIsWhole(s: bytes, ranges: Ranges)
    ensures View(s, ranges) == s <==> forall i | 0 <= i < |s| && !Reveals(ranges, i) :: s[i] == 0
    ensures RevealsAll(s, ranges) ==> View(s, ranges) == s
  {
    var v := View(s, ranges);
    assert forall i | 0 <= i < |s| :: v[i] == if Reveals(ranges, i) then s[i] else 0;
    if forall i | 0 <= i < |s| && !Reveals(ranges, i) :: s[i] == 0 {
      assert forall i | 0 <= i < |s| :: v[i] == s[i];
    }
  }

  lemma WholeReveals(s: bytes)
    ensures RevealsAll(s, [(0, |s|)])
  {
    var r := [(0, |s|)];
    assert r[0] in r;
  }

  /** Without a key the whole request is shown. */
  lemma UnredactedView(sent: bytes)
    ensures RevealedRanges(sent, None) == Some([(0, |sent|)]) && View(sent, [(0, |sent|)]) == sent
  {
    WholeReveals(sent);
    ViewIsWhole(sent, [(0, |sent|)]);
  }
}
