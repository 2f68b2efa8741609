/** What a notarised exchange is worth in a run: which deliveries made from it are accepted, and what they say about
    the bytes that really crossed. */
module Exchanges {
  import opened Bytes
  import opened Core
  import opened Verifier
  import opened Harness
  import opened Buyer
  import opened Soundness
  import opened Http
  import opened NotaryService
  import opened Disclosure
  import opened Hiding
  import opened Reseller
  import opened Protocol
  import Json

  // ---------------------------------------------------------------- runs that go on

  lemma RunStep(w: World, evs: seq<Event>, ev: Event)
    ensures Run(w, evs + [ev]) == Next(w, Run(w, evs), ev)
  {
    assert (evs + [ev])[..|evs|] == evs;
  }

  lemma NextKeepsSessions(w: World, s: State, ev: Event)
    ensures s.sessions <= Next(w, s, ev).sessions
  {
  }

  lemma {:induction false} SessionsOnlyGrow(w: World, evs: seq<Event>, more: seq<Event>)
    ensures Run(w, evs).sessions <= Run(w, evs + more).sessions
  {
    if more == [] {
      assert evs + more == evs;
    } else {
      var n := |more| - 1;
      SessionsOnlyGrow(w, evs, more[..n]);
      RunStep(w, evs + more[..n], more[n]);
      NextKeepsSessions(w, Run(w, evs + more[..n]), more[n]);
      assert evs + more == evs + more[..n] + [more[n]];
    }
  }

  /** What the notary makes of an exchange. */
  ghost function Notarized(w: World, x: Exchange): Result<LegAttestation, SessionError> {
    NotarizeSession(CryptoAt(w, {}), w.notary, w.upstream, x.Shown())
  }

  /** Once a session is notarised it stays where it is. */
  lemma SessionStays(w: World, evs: seq<Event>, x: Exchange, more: seq<Event>)
    requires Notarized(w, x).Ok?
    ensures var j, sessions := |Run(w, evs).sessions|, Run(w, evs + [Notarize(x)] + more).sessions;
            && WitnessedBy(w, sessions, Notarized(w, x).value, j)
            && sessions[j] == Session(w.upstream, x.sent, x.received, x.sentRanges, x.receivedRanges, x.time)
  {
    var first := evs + [Notarize(x)];
    RunStep(w, evs, Notarize(x));
    SessionsOnlyGrow(w, first, more);
    var sessions, j := Run(w, first + more).sessions, |Run(w, evs).sessions|;
    assert sessions[j] == Run(w, first).sessions[j];
  }

  /** And its claim stays among those signed. */
  lemma ClaimStaysSigned(w: World, evs: seq<Event>, x: Exchange, more: seq<Event>)
    requires Notarized(w, x).Ok?
    ensures Notarized(w, x).value.claim in ClaimsOf(w, Run(w, evs + [Notarize(x)] + more).sessions)
  {
    SessionStays(w, evs, x, more);
    var sessions := Run(w, evs + [Notarize(x)] + more).sessions;
    assert ClaimOf(w, sessions[|Run(w, evs).sessions|]) in ClaimsOf(w, sessions);
  }

  /** The last thing a run does is decide this delivery. */
  ghost predicate LastDecision(s: State, p: Purchase, d: Delivery, accepted: bool) {
    s.decisions != [] &&
    var last := s.decisions[|s.decisions| - 1];
    last.purchase == p && last.delivery == d && last.accepted == accepted
  }

  lemma DeliveryIsDecided(w: World, before: seq<Event>, p: Purchase, d: Delivery, accepted: bool)
    requires accepted == Accepted(CryptoAt(w, ClaimsOf(w, Run(w, before).sessions)), w.answersYes, p, d)
    ensures LastDecision(Run(w, before + [Deliver(p, d)]), p, d, accepted)
  {
    RunStep(w, before, Deliver(p, d));
  }

  /** A delivery is decided on all sessions signed so far. */
  lemma DecidedOnAll(w: World, before: seq<Event>, p: Purchase, d: Delivery)
    ensures var s, sessions := Run(w, before + [Deliver(p, d)]), Run(w, before).sessions;
            && s.decisions != [] && s.sessions == sessions
            && var last := s.decisions[|s.decisions| - 1];
               last == Decision(p, d, |sessions|, last.accepted) && SignedBefore(s, last) == sessions
  {
    RunStep(w, before, Deliver(p, d));
  }

  // ---------------------------------------------------------------- any exchange

  /** The buyer allows the upstream's host and pins the notary's key. */
  predicate Pins(w: World, p: Purchase) {
    p.expectedUpstream == w.upstream && p.pinnedPubkey == w.notary.PublicKeyHex()
  }

  /** The buyer's side of an exchange: the same body, host and notary. */
  predicate Matches(w: World, p: Purchase, body: bytes) {
    p.requestBody == body && Pins(w, p)
  }

  /** What the seller answers once the notary has attested `x`, when it has `answer` from the upstream. */
  ghost function SellerResponse(w: World, x: Exchange, substitute: bytes -> bytes, mode: Mode,
                                answer: bytes, reference: bytes): Delivery
    requires Notarized(w, x).Ok?
  {
    Respond(CryptoAt(w, {}), w.answersYes, substitute, mode, answer, Notarized(w, x).value, reference)
  }

  /** What the seller ships as the leg's bytes. */
  function Shipped(substitute: bytes -> bytes, mode: Mode, answer: bytes): bytes {
    if mode.Honest? then answer else substitute(answer)
  }

  /** Once signed, an exchange gives the seller an attestation about the bodies the notary saw. */
  lemma SignedIsAttested(w: World, claims: set<LegClaim>, x: Exchange)
    requires WellFormed(w) && Notarized(w, x).Ok? && Notarized(w, x).value.claim in claims
    ensures var leg := Notarized(w, x).value;
            && VerifyProof(CryptoAt(w, claims), leg).Ok?
            && leg.claim.host == w.upstream && leg.proof.pubkey == w.notary.PublicKeyHex()
            && leg.claim.requestDigest == Sha(w, x.RequestSeen())
            && leg.claim.responseDigest == Sha(w, x.ReplySeen())
  {
    CryptoIsIdeal(w, claims);
    AttestVerifies(CryptoAt(w, claims), w.notary, claims, Notarized(w, x).value.claim);
  }

  /** Signatures play no part in making a response. */
  lemma SameResponse(w: World, claims: set<LegClaim>, substitute: bytes -> bytes, mode: Mode, responseBody: bytes,
                     leg: LegAttestation, reference: bytes)
    ensures Respond(CryptoAt(w, {}), w.answersYes, substitute, mode, responseBody, leg, reference)
            == Respond(CryptoAt(w, claims), w.answersYes, substitute, mode, responseBody, leg, reference)
  {
  }

  /** The purchase is one this exchange answers, and the bytes shipped are those the notary saw, as far as digests
      tell. */
  ghost predicate Fits(w: World, x: Exchange, p: Purchase, shipped: bytes) {
    && Pins(w, p) && Sha(w, p.requestBody) == Sha(w, x.RequestSeen())
    && Sha(w, shipped) == Sha(w, x.ReplySeen())
  }

  lemma SignedAgreesIff(w: World, claims: set<LegClaim>, x: Exchange, p: Purchase)
    requires WellFormed(w) && Notarized(w, x).Ok? && Notarized(w, x).value.claim in claims
    ensures Attested(CryptoAt(w, claims), p, Notarized(w, x).value) <==> Pins(w, p)
    ensures Agrees(CryptoAt(w, claims), p, Notarized(w, x).value) <==>
            Pins(w, p) && Sha(w, p.requestBody) == Sha(w, x.RequestSeen())
  {
    SignedIsAttested(w, claims, x);
  }

  lemma SignedExchangeIsJudged(w: World, claims: set<LegClaim>, x: Exchange, substitute: bytes -> bytes, mode: Mode,
                               answer: bytes, p: Purchase, reference: bytes)
    requires WellFormed(w) && Notarized(w, x).Ok? && Notarized(w, x).value.claim in claims
    ensures Accepted(CryptoAt(w, claims), w.answersYes, p, SellerResponse(w, x, substitute, mode, answer, reference))
            <==> Fits(w, x, p, Shipped(substitute, mode, answer))
  {
    var leg := Notarized(w, x).value;
    SignedAgreesIff(w, claims, x, p);
    ResponseAcceptedIff(CryptoAt(w, claims), w.answersYes, substitute, mode, p, answer, leg, reference);
    SameResponse(w, claims, substitute, mode, answer, leg, reference);
  }

  /** In every run: an exchange that was notarised at any time, whatever its prover hid, and then delivered in either
      mode with any answer, is accepted exactly if the buyer pins the notary and host, its request has the digest of
      the request seen, and the bytes shipped have the digest of the reply seen. */
  lemma AnyExchangeInAnyRun(w: World, evs: seq<Event>, more: seq<Event>, x: Exchange, substitute: bytes -> bytes,
                            mode: Mode, answer: bytes, p: Purchase, reference: bytes)
    requires WellFormed(w) && Notarized(w, x).Ok?
    ensures var d := SellerResponse(w, x, substitute, mode, answer, reference);
            LastDecision(Run(w, evs + [Notarize(x)] + more + [Deliver(p, d)]), p, d,
                         Fits(w, x, p, Shipped(substitute, mode, answer)))
  {
    var d := SellerResponse(w, x, substitute, mode, answer, reference);
    var before := evs + [Notarize(x)] + more;
    ClaimStaysSigned(w, evs, x, more);
    SignedExchangeIsJudged(w, ClaimsOf(w, Run(w, before).sessions), x, substitute, mode, answer, p, reference);
    DeliveryIsDecided(w, before, p, d, Fits(w, x, p, Shipped(substitute, mode, answer)));
  }

  /** A seller who sells what the notary saw, to a buyer who sent what the notary saw, is accepted. */
  lemma SeenExchangeInAnyRun(w: World, evs: seq<Event>, more: seq<Event>, x: Exchange, substitute: bytes -> bytes,
                             p: Purchase, reference: bytes)
    requires WellFormed(w) && Notarized(w, x).Ok? && Matches(w, p, x.RequestSeen())
    ensures var d := SellerResponse(w, x, substitute, Honest, x.ReplySeen(), reference);
            LastDecision(Run(w, evs + [Notarize(x)] + more + [Deliver(p, d)]), p, d, true)
  {
    AnyExchangeInAnyRun(w, evs, more, x, substitute, Honest, x.ReplySeen(), p, reference);
  }

  // ---------------------------------------------------------------- what hiding is worth

  /** Two answers get the same verdict from every judge only if they are the same. */
  lemma JudgesTellApart(a: bytes, b: bytes)
    ensures (forall f: bytes -> bool :: StartsWithYes(f, a) == StartsWithYes(f, b)) <==> a == b
  {
    if forall f: bytes -> bool :: StartsWithYes(f, a) == StartsWithYes(f, b) {
      var f := (x: bytes) => x == a;
      assert StartsWithYes(f, a) == StartsWithYes(f, b);
    }
  }

  /** The verdict a seller sells for the reply that the notary saw, when `f` judges answers. */
  ghost function SoldVerdict(w: World, x: Exchange, f: bytes -> bool, substitute: bytes -> bytes, reference: bytes)
    : bytes
    requires Notarized(w, x).Ok?
  {
    Respond(CryptoAt(w, {}), f, substitute, Honest, x.ReplySeen(), Notarized(w, x).value, reference).body
  }

  /** What a prover can sell by hiding: in every run, whatever it hides of the reply, header section included, the
      buyer accepts the verdict on the body that is left.  Where chunks are still told apart, and so wherever the
      reply is not chunked, that is the real verdict for every judge exactly if no content is hidden but zeros and
      split and framing are read as they are. */
  lemma HiddenReplyInAnyRun(w: World, evs: seq<Event>, more: seq<Event>, x: Exchange, substitute: bytes -> bytes,
                            p: Purchase, reference: bytes)
    requires WellFormed(w) && Notarized(w, x).Ok? && Matches(w, p, x.RequestSeen())
    ensures var d := SellerResponse(w, x, substitute, Honest, x.ReplySeen(), reference);
            && LastDecision(Run(w, evs + [Notarize(x)] + more + [Deliver(p, d)]), p, d, true)
            && d.body == SoldVerdict(w, x, w.answersYes, substitute, reference)
    ensures KeepsBody(x.received, x.receivedRanges) ==>
              forall f :: SoldVerdict(w, x, f, substitute, reference) == StartsWithYes(f, DecodedBody(x.received))
    ensures KeepsFraming(x.received, x.receivedRanges) ==>
              ((forall f :: SoldVerdict(w, x, f, substitute, reference) == StartsWithYes(f, DecodedBody(x.received)))
               <==> KeepsBody(x.received, x.receivedRanges))
  {
    SeenExchangeInAnyRun(w, evs, more, x, substitute, p, reference);
    BodyKeptIff(x.received, x.receivedRanges);
    VerdictsAgree(w, x, substitute, reference);
  }

  lemma VerdictsAgree(w: World, x: Exchange, substitute: bytes -> bytes, reference: bytes)
    requires Notarized(w, x).Ok?
    ensures (forall f :: SoldVerdict(w, x, f, substitute, reference) == StartsWithYes(f, DecodedBody(x.received)))
            <==> x.ReplySeen() == DecodedBody(x.received)
  {
    var a, b := x.ReplySeen(), DecodedBody(x.received);
    JudgesTellApart(a, b);
    forall f ensures SoldVerdict(w, x, f, substitute, reference) == StartsWithYes(f, a) {
    }
    if forall f :: SoldVerdict(w, x, f, substitute, reference) == StartsWithYes(f, b) {
      forall f: bytes -> bool ensures StartsWithYes(f, a) == StartsWithYes(f, b) {
        assert SoldVerdict(w, x, f, substitute, reference) == StartsWithYes(f, b);
      }
    }
  }

  // ---------------------------------------------------------------- another question

  lemma ZerosView(a: bytes, b: bytes)
    ensures View(a + b, [(|a|, |a + b|)]) == Zeros(|a|) + b
  {
    var s, r := a + b, [(|a|, |a + b|)];
    assert r[0] in r;
    forall i | 0 <= i < |s| ensures View(s, r)[i] == (Zeros(|a|) + b)[i] {
      assert Reveals(r, i) <==> |a| <= i;
    }
  }

  lemma ZerosBeforeBlankLine(n: nat, b: bytes)
    requires n > 0
    ensures DecodedBody(Zeros(n) + (HEADER_END + b)) == b
  {
    var line := Zeros(n);
    NoKNotChunked(line);
    assert !DeclaresChunked([line]);
    IdentityBody([line], b);
    assert CRLF + CRLF == HEADER_END;
    assert Head([]) == CRLF && Head([line]) == line + HEADER_END;
    Assoc(line, HEADER_END, b);
  }

  /** Hidden up to a blank line inside its body, a message is read from there on. */
  lemma ReadFromBlankLine(lines: seq<bytes>, asked: bytes, b: bytes)
    requires lines != [] && AreLines(lines) && !DeclaresChunked(lines)
    ensures var a := Head(lines) + asked;
            var sent := a + (HEADER_END + b);
            && DecodedBody(sent) == asked + (HEADER_END + b)
            && DecodedBody(View(sent, [(|a|, |sent|)])) == b
  {
    var a := Head(lines) + asked;
    Assoc(Head(lines), asked, HEADER_END + b);
    IdentityBody(lines, asked + (HEADER_END + b));
    ZerosView(a, HEADER_END + b);
    ZerosBeforeBlankLine(|a|, b);
  }

  /** An exchange whose prover really asks something else, and shows only what follows a blank line in it. */
  function OtherQuestion(w: World, lines: seq<bytes>, asked: bytes, b: bytes, received: bytes, ranges: Ranges,
                         time: bytes): Exchange {
    var a := Head(lines) + asked;
    var sent := a + (HEADER_END + b);
    Exchange(true, true, Some(w.upstream), true, sent, received, [(|a|, |sent|)], ranges, time)
  }

  /** Without a condition on what is hidden of the request, the leg's request need not be what was asked.  In every
      run, for every request `b` of a buyer, the upstream can be sent another body that ends in a blank line and
      `b`, and the verdict on its answer is accepted. */
  lemma OtherQuestionInAnyRun(w: World, evs: seq<Event>, more: seq<Event>, lines: seq<bytes>, asked: bytes, b: bytes,
                              received: bytes, ranges: Ranges, time: bytes, substitute: bytes -> bytes,
                              p: Purchase, reference: bytes)
    requires WellFormed(w) && Matches(w, p, b)
    requires lines != [] && AreLines(lines) && !DeclaresChunked(lines)
    ensures var x := OtherQuestion(w, lines, asked, b, received, ranges, time);
            Notarized(w, x).Ok? &&
            var d := SellerResponse(w, x, substitute, Honest, x.ReplySeen(), reference);
            && LastDecision(Run(w, evs + [Notarize(x)] + more + [Deliver(p, d)]), p, d, true)
            && DecodedBody(x.sent) == asked + (HEADER_END + b) != p.requestBody
            && !KeepsBody(x.sent, x.sentRanges)
  {
    var x := OtherQuestion(w, lines, asked, b, received, ranges, time);
    ReadFromBlankLine(lines, asked, b);
    BodyKeptIff(x.sent, x.sentRanges);
    SeenExchangeInAnyRun(w, evs, more, x, substitute, p, reference);
  }

  // ---------------------------------------------------------------- the honest exchange

  /** An upstream reply on the wire, in either framing of its body. */
  datatype Reply =
    | Plain(version: bytes, status: u16, reason: bytes, fields: seq<bytes>, content: bytes)
    | InChunks(version: bytes, status: u16, reason: bytes, fields: seq<bytes>, chunks: seq<Chunk>,
        last: SizeLine, after: bytes)
  {
    function Lines(): seq<bytes> {
      [StartLine(version, Json.PrintNat(status), reason)] + fields
    }

    function Wire(): bytes {
      Head(Lines()) + if Plain? then content else Http.Chunked(chunks, last, after)
    }

    /** The body an HTTP client hands on. */
    function Body(): bytes {
      if Plain? then content else Payload(chunks)
    }

    predicate Valid() {
      && IsWord(version) && 58 !in version && CR !in reason && LF !in reason && AreLines(fields)
      && (DeclaresChunked(fields) <==> InChunks?)
      && (InChunks? ==> ValidChunks(chunks) && last.Announces(0))
    }
  }

  lemma StartLineIsLine(a: bytes, b: bytes, c: bytes, fields: seq<bytes>)
    requires IsWord(a) && 58 !in a && IsWord(b) && CR !in c && LF !in c && AreLines(fields)
    ensures var lines := [StartLine(a, b, c)] + fields;
            AreLines(lines) && (DeclaresChunked(lines) <==> DeclaresChunked(fields))
  {
    var start := StartLine(a, b, c);
    assert CR !in a && LF !in a && CR !in b && LF !in b;
    StartLineNotChunked(a, b, c);
    forall l | l in [start] + fields ensures IsLine(l) && (IsChunkedLine(Lower(l)) ==> l in fields) {
      assert l == start || l in fields;
    }
    assert forall l | l in fields :: l in [start] + fields;
  }

  /** The notary reads an upstream reply's body and status whatever its framing. */
  lemma ReplyRead(r: Reply)
    requires r.Valid()
    ensures DecodedBody(r.Wire()) == r.Body() && StatusCode(r.Wire()) == r.status
  {
    PrintNatIsWord(r.status);
    StartLineIsLine(r.version, Json.PrintNat(r.status), r.reason, r.fields);
    if r.Plain? {
      IdentityBody(r.Lines(), r.content);
      StatusRoundTrip(r.version, r.status, r.reason, r.fields, r.content);
    } else {
      ChunkedBody(r.Lines(), r.chunks, r.last, r.after);
      StatusRoundTrip(r.version, r.status, r.reason, r.fields, Http.Chunked(r.chunks, r.last, r.after));
    }
  }

  lemma PrintNatIsWord(n: nat)
    ensures IsWord(Json.PrintNat(n))
  {
    PrintNatIsDigits(n);
  }

  /** A request the reseller may send: not chunked, and carrying its key, if it has one, at the end of a
      field line. */
  datatype Request = Request(
    httpMethod: bytes, path: bytes, version: bytes, fields: seq<bytes>, key: Option<bytes>, body: bytes)
  {
    function Start(): bytes {
      StartLine(httpMethod, path, version)
    }

    function Wire(): bytes {
      Head([Start()] + fields) + body
    }

    predicate Valid() {
      && IsWord(httpMethod) && 58 !in httpMethod && IsWord(path) && CR !in version && LF !in version
      && AreLines(fields) && !DeclaresChunked(fields)
      && (key.Some? ==> IsKey(key.value) && CarriesKey(fields, key.value))
    }

    /** The key, if there is one, first occurs after the path. */
    predicate KeyAfterPath() {
      key.Some? ==>
        var pos := Position(Wire(), key.value);
        pos.Some? && pos.value >= |httpMethod| + |path| + 2
    }
  }

  lemma CarriesKeyBehindStart(start: bytes, fields: seq<bytes>, key: bytes)
    requires CarriesKey(fields, key)
    ensures CarriesKey([start] + fields, key)
  {
    var l :| l in fields && EndsWith(l, key);
    assert l in [start] + fields;
  }

  /** The notary reads the body of the request from its partial view, and method and path exactly if the key
      first occurs after them. */
  lemma RequestRead(q: Request)
    requires q.Valid()
    ensures RevealedRanges(q.Wire(), q.key).Some?
    ensures var v := View(q.Wire(), RevealedRanges(q.Wire(), q.key).value);
            DecodedBody(v) == q.body && (q.KeyAfterPath() <==> RequestLine(v) == (q.httpMethod, q.path))
  {
    var lines := [q.Start()] + q.fields;
    StartLineIsLine(q.httpMethod, q.path, q.version, q.fields);
    if q.key.None? {
      UnredactedView(q.Wire());
      IdentityBody(lines, q.body);
      RequestLineRoundTrip(q.httpMethod, q.path, q.version, q.fields, q.body);
    } else {
      CarriesKeyBehindStart(q.Start(), q.fields, q.key.value);
      RedactedRequestBody(lines, q.key.value, q.body);
      Assoc(q.Start(), CRLF + Head(q.fields), q.body);
      assert lines[1..] == q.fields;
      RedactedRequestLine(q.httpMethod, q.path, q.version, (CRLF + Head(q.fields)) + q.body, q.key.value);
    }
  }

  /** The exchange an honest reseller brings the notary: all that was received, and all that was sent but the key. */
  function HonestExchange(w: World, q: Request, reply: Reply, time: bytes): Option<Exchange> {
    var ranges := RevealedRanges(q.Wire(), q.key);
    if ranges.None? then None
    else
      var received := reply.Wire();
      Some(Exchange(true, true, Some(w.upstream), true, q.Wire(), received, ranges.value, [(0, |received|)], time))
  }

  /** The notary sees the bodies as they were. */
  lemma HonestIsSeen(w: World, q: Request, reply: Reply, time: bytes)
    requires q.Valid() && reply.Valid()
    ensures var x := HonestExchange(w, q, reply, time);
            && x.Some? && Notarized(w, x.value).Ok?
            && x.value.RequestSeen() == q.body && x.value.ReplySeen() == reply.Body()
            && View(x.value.received, x.value.receivedRanges) == reply.Wire()
  {
    RequestRead(q);
    ReplyRead(reply);
    UnredactedView(reply.Wire());
  }

  /** What the honest reseller hides leaves both bodies as they were. */
  lemma HonestKeepsBodies(w: World, q: Request, reply: Reply, time: bytes)
    requires q.Valid() && reply.Valid()
    ensures var x := HonestExchange(w, q, reply, time);
            && x.Some? && KeepsBody(x.value.sent, x.value.sentRanges)
            && KeepsBody(x.value.received, x.value.receivedRanges)
  {
    HonestIsSeen(w, q, reply, time);
    WholeReveals(reply.Wire());
    ShownKeepsBody(reply.Wire(), [(0, |reply.Wire()|)]);
    RequestKeepsBody(q);
  }

  lemma RequestKeepsBody(q: Request)
    requires q.Valid()
    ensures RevealedRanges(q.Wire(), q.key).Some?
    ensures KeepsBody(q.Wire(), RevealedRanges(q.Wire(), q.key).value)
  {
    var lines := [q.Start()] + q.fields;
    var ranges := RevealedRanges(q.Wire(), q.key);
    RequestRead(q);
    StartLineIsLine(q.httpMethod, q.path, q.version, q.fields);
    IdentityBody(lines, q.body);
    PrintedSplit(lines, q.body);
    BodyKeptIff(q.Wire(), ranges.value);
  }

  /** The split of a printed message that is not chunked. */
  lemma PrintedSplit(lines: seq<bytes>, body: bytes)
    requires lines != [] && AreLines(lines) && !DeclaresChunked(lines)
    ensures var s := Head(lines) + body;
            BodyStart(s) == |Head(lines)| && !HeaderIsChunked(s[..BodyStart(s)])
  {
    HeaderEndFound(lines, body);
    ChunkedHead(lines);
    Append(Head(lines), body);
  }

  /** The honest exchange is notarised, and the claim says what happened: in spite of the redaction and of the
      framing, its digests are those of the bodies as buyer and HTTP client know them, and its other fields are
      the exchange's own, method and path exactly if the key first occurs after them. */
  lemma HonestSessionIsSigned(w: World, q: Request, reply: Reply, time: bytes)
    requires q.Valid() && reply.Valid()
    ensures var x := HonestExchange(w, q, reply, time);
            x.Some? && Notarized(w, x.value).Ok? &&
            var a := Notarized(w, x.value).value;
            && a.claim == LegClaim(w.upstream, a.claim.httpMethod, a.claim.path,
                                   Sha(w, q.body), Sha(w, reply.Body()), reply.status, time)
            && (q.KeyAfterPath() <==> a.claim.httpMethod == q.httpMethod && a.claim.path == q.path)
            && a == w.notary.Attest(a.claim)
            && ReadAttestation(Json.Print(AttestationToJson(a))) == Some(a)
  {
    HonestIsSeen(w, q, reply, time);
    RequestRead(q);
    ReplyRead(reply);
    AttestationWireRoundTrip(Notarized(w, HonestExchange(w, q, reply, time).value).value);
  }

  /** Completeness, and detection of substitution, in every run.  Whatever happens before and in between, an
      exchange that is notarised and then delivered is accepted if the seller is honest: for every request
      body, with or without a key, and in either framing of the reply.  A seller who substitutes the answer
      is accepted only if the substitute has the real answer's digest. */
  lemma ExchangeInAnyRun(w: World, evs: seq<Event>, more: seq<Event>, q: Request, reply: Reply, time: bytes,
                         substitute: bytes -> bytes, mode: Mode, p: Purchase, reference: bytes)
    requires WellFormed(w) && q.Valid() && reply.Valid() && Matches(w, p, q.body)
    ensures var x := HonestExchange(w, q, reply, time);
            x.Some? && Notarized(w, x.value).Ok? &&
            var d := SellerResponse(w, x.value, substitute, mode, reply.Body(), reference);
            LastDecision(Run(w, evs + [Notarize(x.value)] + more + [Deliver(p, d)]), p, d,
                         mode.Honest? || Sha(w, substitute(reply.Body())) == Sha(w, reply.Body()))
  {
    HonestIsSeen(w, q, reply, time);
    AnyExchangeInAnyRun(w, evs, more, HonestExchange(w, q, reply, time).value, substitute, mode, reply.Body(), p,
                        reference);
  }

  /** Behind every leg of the graph are requests and replies that hiding left as they were. */
  ghost predicate LegsKept(w: World, sessions: seq<Session>, g: Graph) {
    RepliesKept(w, sessions, g) &&
    forall id | id in g && g[id].proof.Leg? :: RequestKept(w, sessions, g[id].proof.att)
  }

  /** Behind the seller's one leg is the session just signed. */
  lemma OneLegKept(w: World, evs: seq<Event>, more: seq<Event>, x: Exchange,
                   substitute: bytes -> bytes, mode: Mode, answer: bytes, reference: bytes)
    requires Notarized(w, x).Ok? && KeepsBody(x.sent, x.sentRanges) && KeepsBody(x.received, x.receivedRanges)
    ensures var d := SellerResponse(w, x, substitute, mode, answer, reference);
            LegsKept(w, Run(w, evs + [Notarize(x)] + more).sessions, Index(Read(d).NodesOrNone()))
  {
    var sessions, leg, j := Run(w, evs + [Notarize(x)] + more).sessions, Notarized(w, x).value, |Run(w, evs).sessions|;
    SessionStays(w, evs, x, more);
    assert KeptBehind(w, sessions, leg, j) && RequestKeptIn(w, sessions, leg, j);
    ResponseLegs(CryptoAt(w, {}), w.answersYes, substitute, mode, answer, leg, reference);
  }

  /** All that the main results ask of a decision but that it accepts and that hashing tells values apart. */
  ghost predicate Conditions(w: World, sessions: seq<Session>, d: Decision, rank: map<NodeId, nat>) {
    var nodes := Read(d.delivery).NodesOrNone();
    && RepliesKept(w, sessions, SoldGraph(w, sessions, d)) && LegsKept(w, sessions, Index(nodes)) && UniqueIds(nodes)
    && Acyclic(SoldGraph(w, sessions, d), rank) && Acyclic(SoldIndex(d), rank)
  }

  lemma KeptMeetsConditions(w: World, sessions: seq<Session>, d: Decision, rank: map<NodeId, nat>)
    requires var nodes := Read(d.delivery).NodesOrNone();
             LegsKept(w, sessions, Index(nodes)) && UniqueIds(nodes) && NodesAcyclic(nodes, rank)
    ensures Conditions(w, sessions, d, rank)
  {
    KeptInIndex(w, sessions, d);
    SoldAcyclic(w, sessions, d, rank);
  }

  /** The seller's two nodes, in order. */
  const TWO_NODES: map<NodeId, nat> := map[LEG0 := 0, VERDICT := 1]

  /** Delivered after `before`, `d` is accepted under the pin, with all that the main results ask. */
  ghost predicate SoldUnderConditions(w: World, before: seq<Event>, p: Purchase, d: Delivery) {
    var s := Run(w, before + [Deliver(p, d)]);
    LastDecision(s, p, d, true) &&
    var k := |s.decisions| - 1;
    AcceptedUnderPin(w, s, k) && Conditions(w, SignedBefore(s, s.decisions[k]), s.decisions[k], TWO_NODES)
  }

  lemma DecidedUnderConditions(w: World, before: seq<Event>, p: Purchase, d: Delivery)
    requires LastDecision(Run(w, before + [Deliver(p, d)]), p, d, true) && Pins(w, p)
    requires var nodes := Read(d).NodesOrNone();
             LegsKept(w, Run(w, before).sessions, Index(nodes)) && UniqueIds(nodes) && NodesAcyclic(nodes, TWO_NODES)
    ensures SoldUnderConditions(w, before, p, d)
  {
    var sessions := Run(w, before).sessions;
    KeptMeetsConditions(w, sessions, Decision(p, d, |sessions|, true), TWO_NODES);
    SoldBy(w, before, p, d, sessions);
  }

  lemma SoldBy(w: World, before: seq<Event>, p: Purchase, d: Delivery, sessions: seq<Session>)
    requires LastDecision(Run(w, before + [Deliver(p, d)]), p, d, true) && Pins(w, p)
    requires sessions == Run(w, before).sessions
    requires Conditions(w, sessions, Decision(p, d, |sessions|, true), TWO_NODES)
    ensures SoldUnderConditions(w, before, p, d)
  {
    DecidedOnAll(w, before, p, d);
  }

  lemma KeptDelivery(w: World, evs: seq<Event>, more: seq<Event>, x: Exchange, substitute: bytes -> bytes,
                     answer: bytes, reference: bytes)
    requires Notarized(w, x).Ok? && KeepsBody(x.sent, x.sentRanges) && KeepsBody(x.received, x.receivedRanges)
    ensures var nodes := Read(SellerResponse(w, x, substitute, Honest, answer, reference)).NodesOrNone();
            && LegsKept(w, Run(w, evs + [Notarize(x)] + more).sessions, Index(nodes))
            && UniqueIds(nodes) && NodesAcyclic(nodes, TWO_NODES)
  {
    OneLegKept(w, evs, more, x, substitute, Honest, answer, reference);
    ResponseIsWellFormed(CryptoAt(w, {}), w.answersYes, substitute, Honest, answer, Notarized(w, x).value, reference);
  }

  /** Any exchange whose prover left both bodies as they were, sold as it is to a buyer who sent that request, meets
      what the main results ask. */
  lemma KeptExchangeInAnyRun(w: World, evs: seq<Event>, more: seq<Event>, x: Exchange, substitute: bytes -> bytes,
                             p: Purchase, reference: bytes)
    requires WellFormed(w) && Notarized(w, x).Ok? && Matches(w, p, x.RequestSeen())
    requires KeepsBody(x.sent, x.sentRanges) && KeepsBody(x.received, x.receivedRanges)
    ensures SoldUnderConditions(w, evs + [Notarize(x)] + more, p,
                                SellerResponse(w, x, substitute, Honest, x.ReplySeen(), reference))
  {
    SeenExchangeInAnyRun(w, evs, more, x, substitute, p, reference);
    KeptDelivery(w, evs, more, x, substitute, x.ReplySeen(), reference);
    DecidedUnderConditions(w, evs + [Notarize(x)] + more, p,
                           SellerResponse(w, x, substitute, Honest, x.ReplySeen(), reference));
  }

  /** The honest run meets what the main results ask: its delivery is accepted under the pin, its receipt has unique
      ids and no cycle, and hiding left request and reply as they were.  What the buyer gets is the transform of the
      upstream's real answer. */
  lemma HonestDeliveryIsTheVerdict(w: World, evs: seq<Event>, more: seq<Event>, q: Request, reply: Reply, time: bytes,
                                   substitute: bytes -> bytes, p: Purchase, reference: bytes)
    requires WellFormed(w) && q.Valid() && reply.Valid() && Matches(w, p, q.body)
    ensures var x := HonestExchange(w, q, reply, time);
            x.Some? && Notarized(w, x.value).Ok? &&
            var d := SellerResponse(w, x.value, substitute, Honest, reply.Body(), reference);
            && SoldUnderConditions(w, evs + [Notarize(x.value)] + more, p, d)
            && d.body == StartsWithYes(w.answersYes, reply.Body())
  {
    HonestIsSeen(w, q, reply, time);
    HonestKeepsBodies(w, q, reply, time);
    KeptExchangeInAnyRun(w, evs, more, HonestExchange(w, q, reply, time).value, substitute, p, reference);
  }

  // ---------------------------------------------------------------- hiding part of a reply

  /** A plain reply is seen with its real content exactly if the blank line is shown where the header section ends,
      and, where there is content, no declaration of chunking appears and no content is hidden but zeros. */
  lemma PlainReplyKeptIff(r: Reply, ranges: Ranges)
    requires r.Valid() && r.Plain?
    ensures var v, n := View(r.Wire(), ranges), |Head(r.Lines())|;
            DecodedBody(v) == r.content <==>
            && BodyStart(v) == n
            && (r.content == [] || (!HeaderIsChunked(v[..n]) && OnlyZerosHidden(r.Wire(), ranges, n)))
  {
    PrintNatIsWord(r.status);
    StartLineIsLine(r.version, Json.PrintNat(r.status), r.reason, r.fields);
    PrintedSplit(r.Lines(), r.content);
    ReplyRead(r);
    BodyKeptIff(r.Wire(), ranges);
  }

  /** A chunked reply whose chunks are still told apart is seen with its real payload exactly if it is still seen to be
      chunked and no chunk data is hidden but zeros. */
  lemma ChunkedReplyKeptIff(r: Reply, ranges: Ranges)
    requires r.Valid() && r.InChunks?
    requires var v, n := View(r.Wire(), ranges), |Head(r.Lines())|;
             BodyStart(v) == n && SameChunks(ChunkSize, r.Wire()[n..], v[n..])
    ensures var v, n := View(r.Wire(), ranges), |Head(r.Lines())|;
            DecodedBody(v) == Payload(r.chunks) <==>
            HeaderIsChunked(v[..n]) && OnlyZeroDataHidden(r.Wire(), ranges, n)
  {
    var body := Http.Chunked(r.chunks, r.last, r.after);
    PrintNatIsWord(r.status);
    StartLineIsLine(r.version, Json.PrintNat(r.status), r.reason, r.fields);
    HeaderEndFound(r.Lines(), body);
    ChunkedHead(r.Lines());
    Append(Head(r.Lines()), body);
    ChunkedNotEmpty(r.chunks, r.last, r.after);
    ReplyRead(r);
    BodyKeptIff(r.Wire(), ranges);
  }

  lemma ChunkedNotEmpty(cs: seq<Chunk>, last: SizeLine, after: bytes)
    ensures Http.Chunked(cs, last, after) != []
  {
  }

  /** All of a plain reply but `mid` in its content before + mid + after. */
  function AllBut(reply: Reply, before: bytes, mid: bytes): Ranges {
    var start := |Head(reply.Lines())| + |before|;
    [(0, start), (start + |mid|, |reply.Wire()|)]
  }

  lemma AllButView(reply: Reply, before: bytes, mid: bytes, after: bytes)
    requires reply.Plain? && reply.content == before + (mid + after)
    ensures View(reply.Wire(), AllBut(reply, before, mid))
            == reply.(content := before + (Zeros(|mid|) + after)).Wire()
  {
    var head := Head(reply.Lines());
    Assoc(head, before, mid + after);
    Assoc(head, before, Zeros(|mid|) + after);
    WindowView(head + before, mid, after);
  }

  lemma AllButRead(reply: Reply, before: bytes, mid: bytes, after: bytes)
    requires reply.Valid() && reply.Plain? && reply.content == before + (mid + after)
    ensures DecodedBody(View(reply.Wire(), AllBut(reply, before, mid))) == before + (Zeros(|mid|) + after)
  {
    AllButView(reply, before, mid, after);
    ReplyRead(reply.(content := before + (Zeros(|mid|) + after)));
  }

  lemma WindowIsZero(before: bytes, mid: bytes, after: bytes)
    ensures before + (Zeros(|mid|) + after) == before + (mid + after) <==> mid == Zeros(|mid|)
  {
    AppendSame(before, before, mid + after, Zeros(|mid|) + after);
    AppendSame(mid, Zeros(|mid|), after, after);
  }

  /** The family in which one window of a plain reply's content is hidden: the verdict on the content with zeros there
      is accepted in every run. */
  lemma HiddenBytesCountAsZero(w: World, evs: seq<Event>, more: seq<Event>, x: Exchange, reply: Reply,
                               before: bytes, mid: bytes, after: bytes, substitute: bytes -> bytes, p: Purchase,
                               reference: bytes)
    requires WellFormed(w) && Notarized(w, x).Ok? && Matches(w, p, x.RequestSeen())
    requires reply.Valid() && reply.Plain? && reply.content == before + (mid + after)
    requires x.received == reply.Wire() && x.receivedRanges == AllBut(reply, before, mid)
    ensures var seen := before + (Zeros(|mid|) + after);
            var d := SellerResponse(w, x, substitute, Honest, seen, reference);
            && LastDecision(Run(w, evs + [Notarize(x)] + more + [Deliver(p, d)]), p, d, true)
            && d.body == StartsWithYes(w.answersYes, seen)
  {
    AllButRead(reply, before, mid, after);
    SeenExchangeInAnyRun(w, evs, more, x, substitute, p, reference);
  }

  /** That is the real verdict for every judge exactly if there were zeros. */
  lemma HiddenWindowIff(reply: Reply, before: bytes, mid: bytes, after: bytes)
    requires reply.Plain? && reply.content == before + (mid + after)
    ensures (forall f: bytes -> bool ::
               StartsWithYes(f, before + (Zeros(|mid|) + after)) == StartsWithYes(f, reply.Body()))
            <==> mid == Zeros(|mid|)
  {
    JudgesTellApart(before + (Zeros(|mid|) + after), reply.content);
    WindowIsZero(before, mid, after);
  }
}
