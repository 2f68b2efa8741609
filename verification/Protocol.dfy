/** The protocol as a state machine: notary sessions and purchases in any order, with an arbitrary
    seller.  Safety holds of every run; the honest exchange is accepted in every run. */
module Protocol {
  import opened Bytes
  import opened Core
  import opened Verifier
  import opened Materials
  import opened Harness
  import opened Buyer
  import opened Soundness
  import opened Http
  import opened NotaryService
  import opened Disclosure
  import opened Hiding
  import opened Reseller
  import Json

  /** What is fixed for a run.  `otherKeys` decides signatures under every key but the notary's. */
  datatype World = World(
    sha256: bytes -> bytes,
    answersYes: bytes -> bool,
    keyValid: bytes -> bool,
    otherKeys: (bytes, bytes, bytes) -> bool,
    notary: Notary,
    upstream: bytes)

  /** The notary holds a well-formed Ed25519 key and makes well-formed signatures. */
  ghost predicate WellFormed(w: World) {
    && |w.notary.publicKey| == 32 && w.keyValid(w.notary.publicKey)
    && forall m :: |w.notary.sign(m)| == 64
  }

  /** Cryptography once the notary has signed `claims`: nobody can make a signature under its key on
      anything else, and nothing is assumed of other keys. */
  ghost function CryptoAt(w: World, claims: set<LegClaim>): Crypto {
    Crypto(w.sha256, w.keyValid,
           (pk, m, sig) =>
             if pk == w.notary.publicKey
             then sig == w.notary.sign(m) && exists k | k in claims :: SigningMessage(k) == m
             else w.otherKeys(pk, m, sig))
  }

  lemma CryptoIsIdeal(w: World, claims: set<LegClaim>)
    requires WellFormed(w)
    ensures Ideal(CryptoAt(w, claims), w.notary, claims)
  {
  }

  ghost function Sha(w: World, b: bytes): bytes {
    CryptoAt(w, {}).Sha256Hex(b)
  }

  /** What a prover brings the notary: the bytes that crossed the connection, and what it chooses to show of them.
      The notary is given neither side's bytes if the prover reveals no transcript. */
  datatype Exchange = Exchange(
    proxyMode: bool,
    identityRequested: bool,
    serverName: Option<bytes>,
    transcriptRevealed: bool,
    sent: bytes,
    received: bytes,
    sentRanges: Ranges,
    receivedRanges: Ranges,
    time: bytes)
  {
    function Shown(): Witness {
      Witness(proxyMode, identityRequested, serverName,
              if transcriptRevealed then Some((View(sent, sentRanges), View(received, receivedRanges))) else None, time)
    }

    /** The bodies that the notary decodes. */
    function RequestSeen(): bytes {
      DecodedBody(View(sent, sentRanges))
    }

    function ReplySeen(): bytes {
      DecodedBody(View(received, receivedRanges))
    }
  }

  /** A session the notary signed: the host, the bytes that crossed, and which of them it saw. */
  datatype Session = Session(
    host: bytes,
    sent: bytes,
    received: bytes,
    sentRanges: Ranges,
    receivedRanges: Ranges,
    time: bytes)
  {
    function SentSeen(): bytes {
      View(sent, sentRanges)
    }

    function ReceivedSeen(): bytes {
      View(received, receivedRanges)
    }
  }

  ghost function ClaimOf(w: World, s: Session): LegClaim {
    ClaimFor(CryptoAt(w, {}), s.host, s.SentSeen(), s.ReceivedSeen(), s.time)
  }

  ghost function ClaimsOf(w: World, sessions: seq<Session>): set<LegClaim> {
    set i | 0 <= i < |sessions| :: ClaimOf(w, sessions[i])
  }

  /** A purchase decided when the first `at` sessions had been signed. */
  datatype Decision = Decision(purchase: Purchase, delivery: Delivery, at: nat, accepted: bool)

  datatype State = State(sessions: seq<Session>, decisions: seq<Decision>)

  /** A prover of any kind brings the notary an exchange, or a seller of any kind answers a purchase. */
  datatype Event = Notarize(exchange: Exchange) | Deliver(purchase: Purchase, delivery: Delivery)

  ghost function Next(w: World, s: State, ev: Event): State {
    match ev
    case Notarize(x) =>
      if NotarizeSession(CryptoAt(w, {}), w.notary, w.upstream, x.Shown()).Err? then s
      else
        var session := Session(x.serverName.value, x.sent, x.received, x.sentRanges, x.receivedRanges, x.time);
        s.(sessions := s.sessions + [session])
    case Deliver(p, d) =>
      var accepted := Accepted(CryptoAt(w, ClaimsOf(w, s.sessions)), w.answersYes, p, d);
      s.(decisions := s.decisions + [Decision(p, d, |s.sessions|, accepted)])
  }

  ghost function Run(w: World, evs: seq<Event>): State {
    if evs == [] then State([], []) else Next(w, Run(w, evs[..|evs| - 1]), evs[|evs| - 1])
  }

  // ---------------------------------------------------------------- invariants of every run

  /** Every signed session is with the configured upstream, and every decision was made by the buyer's
      checks against the sessions signed before it. */
  ghost predicate Inv(w: World, s: State) {
    && (forall i | 0 <= i < |s.sessions| :: s.sessions[i].host == w.upstream)
    && forall k | 0 <= k < |s.decisions| :: DecisionOk(w, s.sessions, s.decisions[k])
  }

  ghost predicate DecisionOk(w: World, sessions: seq<Session>, d: Decision) {
    && d.at <= |sessions|
    && (d.accepted <==> Accepted(CryptoAt(w, ClaimsOf(w, sessions[..d.at])), w.answersYes, d.purchase, d.delivery))
  }

  lemma NextKeepsInv(w: World, s: State, ev: Event)
    requires Inv(w, s)
    ensures Inv(w, Next(w, s, ev))
  {
    var t := Next(w, s, ev);
    match ev
    case Notarize(_) =>
      forall k | 0 <= k < |t.decisions| ensures DecisionOk(w, t.sessions, t.decisions[k]) {
        assert DecisionOk(w, s.sessions, s.decisions[k]);
        assert t.sessions[..t.decisions[k].at] == s.sessions[..t.decisions[k].at];
      }
    case Deliver(_, _) =>
      assert s.sessions[..|s.sessions|] == s.sessions;
  }

  lemma {:induction false} RunKeepsInv(w: World, evs: seq<Event>)
    ensures Inv(w, Run(w, evs))
  {
    if evs != [] {
      RunKeepsInv(w, evs[..|evs| - 1]);
      NextKeepsInv(w, Run(w, evs[..|evs| - 1]), evs[|evs| - 1]);
    }
  }

  // ---------------------------------------------------------------- safety

  /** The leg's claim is, field for field, that of session `j`. */
  ghost predicate WitnessedBy(w: World, sessions: seq<Session>, att: LegAttestation, j: nat) {
    j < |sessions| && att.claim == ClaimOf(w, sessions[j])
  }

  /** Some session among `sessions` is the leg's. */
  ghost predicate Witnessed(w: World, sessions: seq<Session>, att: LegAttestation) {
    exists j: nat :: WitnessedBy(w, sessions, att, j)
  }

  /** Values that hashing must tell apart in judging one decision: the purchase's request, the delivery,
      the two verdicts, and the decoded bodies that the notary saw in the sessions signed so far. */
  ghost function ValuesAt(sessions: seq<Session>, d: Decision): set<bytes> {
    {d.purchase.requestBody, d.delivery.body, YES, NO}
    + (set i | 0 <= i < |sessions| :: DecodedBody(sessions[i].SentSeen()))
    + (set i | 0 <= i < |sessions| :: DecodedBody(sessions[i].ReceivedSeen()))
    + (set m | m in Read(d.delivery).MaterialsOrNone() :: m.value)
  }

  /** What the buyer expected of decision `d`. */
  ghost function ExpectedAt(w: World, c: Crypto, d: Decision): Expectation
    requires Read(d.delivery).Reading?
  {
    var rd := Read(d.delivery);
    var trusted := Trusted(c, Index(rd.receipt.nodes), rd.materials);
    Expected(c, d.purchase, rd.reference, d.delivery.body, Recomputed(c, w.answersYes, trusted, rd.receipt.nodes))
  }

  /** The delivery passes every check when `sessions` are the ones signed, all of them with the upstream, and
      the buyer pins the notary's key. */
  ghost predicate Passed(w: World, sessions: seq<Session>, d: Decision) {
    && Accepted(CryptoAt(w, ClaimsOf(w, sessions)), w.answersYes, d.purchase, d.delivery)
    && d.purchase.pinnedPubkey == w.notary.PublicKeyHex()
    && forall j | 0 <= j < |sessions| :: sessions[j].host == w.upstream
  }

  lemma PassedAccepts(w: World, sessions: seq<Session>, d: Decision)
    requires Passed(w, sessions, d)
    ensures var c := CryptoAt(w, ClaimsOf(w, sessions));
            Accepts(c, Read(d.delivery).receipt, ExpectedAt(w, c, d))
  {
    var c, rd := CryptoAt(w, ClaimsOf(w, sessions)), Read(d.delivery);
    var e := ExpectedAt(w, c, d);
    AllPassedAppend(MaterialChecks(c, Index(rd.receipt.nodes), rd.materials), Checks(c, rd.receipt, e));
    ChecksDecide(c, rd.receipt, e);
  }

  /** An attestation that verifies under the notary's key is of a session already signed. */
  lemma VerifiedIsWitnessed(w: World, sessions: seq<Session>, att: LegAttestation)
    requires WellFormed(w) && att.proof.pubkey == w.notary.PublicKeyHex()
    requires VerifyProof(CryptoAt(w, ClaimsOf(w, sessions)), att).Ok?
    ensures Witnessed(w, sessions, att)
  {
    var claims := ClaimsOf(w, sessions);
    CryptoIsIdeal(w, claims);
    HexRoundTrip(w.notary.publicKey);
    VerifiesIffSigned(CryptoAt(w, claims), w.notary, claims, att);
    var j :| 0 <= j < |sessions| && ClaimOf(w, sessions[j]) == att.claim;
    assert WitnessedBy(w, sessions, att, j);
  }

  lemma PassedLeg(w: World, sessions: seq<Session>, d: Decision, n: Node)
    requires WellFormed(w) && Passed(w, sessions, d) && n in Read(d.delivery).receipt.nodes && n.proof.Leg?
    ensures Witnessed(w, sessions, n.proof.att)
    ensures n.proof.att.claim.host == w.upstream == d.purchase.expectedUpstream
    ensures n.outputDigest == n.proof.att.claim.responseDigest
  {
    var c := CryptoAt(w, ClaimsOf(w, sessions));
    PassedAccepts(w, sessions, d);
    assert NodeAccepted(c, ExpectedAt(w, c, d), Index(Read(d.delivery).receipt.nodes), n);
    VerifiedIsWitnessed(w, sessions, n.proof.att);
  }

  /** Session `j` is the leg's, and the request body decoded from what the notary saw is the buyer's. */
  ghost predicate AnsweredIn(w: World, sessions: seq<Session>, att: LegAttestation, request: bytes, j: nat) {
    WitnessedBy(w, sessions, att, j) && DecodedBody(sessions[j].SentSeen()) == request
  }

  ghost predicate Answered(w: World, sessions: seq<Session>, att: LegAttestation, request: bytes) {
    exists j: nat :: AnsweredIn(w, sessions, att, request, j)
  }

  lemma WitnessedAnswers(w: World, sessions: seq<Session>, d: Decision, att: LegAttestation)
    requires Witnessed(w, sessions, att) && CollisionFree(CryptoAt(w, {}), ValuesAt(sessions, d))
    requires att.claim.requestDigest == Sha(w, d.purchase.requestBody)
    ensures Answered(w, sessions, att, d.purchase.requestBody)
  {
    var j: nat :| WitnessedBy(w, sessions, att, j);
    SameDigestSameBytes(CryptoAt(w, {}), ValuesAt(sessions, d), DecodedBody(sessions[j].SentSeen()),
                        d.purchase.requestBody);
    assert AnsweredIn(w, sessions, att, d.purchase.requestBody, j);
  }

  /** The output depends on some leg, and every leg it depends on answered the request. */
  ghost predicate OutputAnswered(w: World, sessions: seq<Session>, g: Graph, output: NodeId, request: bytes) {
    && (exists id :: ReachesLeg(g, output, id))
    && forall id | ReachesLeg(g, output, id) :: Answered(w, sessions, g[id].proof.att, request)
  }

  lemma PassedAnswers(w: World, sessions: seq<Session>, d: Decision, g: Graph, output: NodeId)
    requires WellFormed(w) && Passed(w, sessions, d) && CollisionFree(CryptoAt(w, {}), ValuesAt(sessions, d))
    requires g == Index(Read(d.delivery).receipt.nodes) && output == Read(d.delivery).receipt.outputNode
    ensures OutputAnswered(w, sessions, g, output, d.purchase.requestBody)
  {
    PassedRequest(w, sessions, d);
    IndexIsLast(Read(d.delivery).receipt.nodes);
    forall id | ReachesLeg(g, output, id) ensures Answered(w, sessions, g[id].proof.att, d.purchase.requestBody) {
      PassedLeg(w, sessions, d, g[id]);
      WitnessedAnswers(w, sessions, d, g[id].proof.att);
    }
  }

  lemma PassedRequest(w: World, sessions: seq<Session>, d: Decision)
    requires Passed(w, sessions, d)
    ensures var r := Read(d.delivery).receipt;
            AnswersTheRequest(Index(r.nodes), r.outputNode, Sha(w, d.purchase.requestBody))
  {
    PassedAccepts(w, sessions, d);
  }

  /** A session with this claim. */
  ghost function SessionBehind(w: World, sessions: seq<Session>, att: LegAttestation): (j: nat)
    requires Witnessed(w, sessions, att)
    ensures WitnessedBy(w, sessions, att, j)
  {
    var j: nat :| WitnessedBy(w, sessions, att, j);
    j
  }

  /** The response body of that session, decoded from what the notary saw. */
  ghost function SeenBehind(w: World, sessions: seq<Session>, att: LegAttestation): bytes
    requires Witnessed(w, sessions, att)
  {
    DecodedBody(sessions[SessionBehind(w, sessions, att)].ReceivedSeen())
  }

  /** Session `j` is the leg's, and what its prover hid left the body of the reply as it was. */
  ghost predicate KeptBehind(w: World, sessions: seq<Session>, att: LegAttestation, j: nat) {
    WitnessedBy(w, sessions, att, j) && KeepsBody(sessions[j].received, sessions[j].receivedRanges)
  }

  ghost predicate ReplyKept(w: World, sessions: seq<Session>, att: LegAttestation) {
    exists j: nat :: KeptBehind(w, sessions, att, j)
  }

  /** The response body of such a session, decoded from what the upstream sent. */
  ghost function SentBehind(w: World, sessions: seq<Session>, att: LegAttestation): bytes
    requires ReplyKept(w, sessions, att)
  {
    var j: nat :| KeptBehind(w, sessions, att, j);
    DecodedBody(sessions[j].received)
  }

  ghost function WitnessedOrigin(w: World, sessions: seq<Session>, g: Graph): Outputs {
    map id | id in g && g[id].proof.Leg? && Witnessed(w, sessions, g[id].proof.att) ::
      SeenBehind(w, sessions, g[id].proof.att)
  }

  ghost function RealOrigin(w: World, sessions: seq<Session>, g: Graph): Outputs {
    map id | id in g && g[id].proof.Leg? && ReplyKept(w, sessions, g[id].proof.att) ::
      SentBehind(w, sessions, g[id].proof.att)
  }

  /** Behind every leg of the graph is a session whose prover left the body of the reply as it was. */
  ghost predicate RepliesKept(w: World, sessions: seq<Session>, g: Graph) {
    forall id | id in g && g[id].proof.Leg? :: ReplyKept(w, sessions, g[id].proof.att)
  }

  lemma SameClaimSameBody(w: World, sessions: seq<Session>, d: Decision, i: nat, j: nat)
    requires i < |sessions| && j < |sessions| && ClaimOf(w, sessions[i]) == ClaimOf(w, sessions[j])
    requires CollisionFree(CryptoAt(w, {}), ValuesAt(sessions, d))
    ensures DecodedBody(sessions[i].ReceivedSeen()) == DecodedBody(sessions[j].ReceivedSeen())
  {
    var a, b := DecodedBody(sessions[i].ReceivedSeen()), DecodedBody(sessions[j].ReceivedSeen());
    assert ClaimOf(w, sessions[i]).responseDigest == Sha(w, a) && ClaimOf(w, sessions[j]).responseDigest == Sha(w, b);
    SameDigestSameBytes(CryptoAt(w, {}), ValuesAt(sessions, d), a, b);
  }

  /** Whichever session is behind a leg, the body seen is the one the leg stands for; it is the real one exactly if
      what was hidden left it as it was. */
  lemma ReplyIsRealIff(w: World, sessions: seq<Session>, d: Decision, att: LegAttestation, j: nat)
    requires WitnessedBy(w, sessions, att, j) && CollisionFree(CryptoAt(w, {}), ValuesAt(sessions, d))
    ensures Witnessed(w, sessions, att) && DecodedBody(sessions[j].ReceivedSeen()) == SeenBehind(w, sessions, att)
    ensures var x, ranges := sessions[j].received, sessions[j].receivedRanges;
            && (KeepsBody(x, ranges) ==> DecodedBody(x) == SeenBehind(w, sessions, att))
            && (KeepsFraming(x, ranges) ==>
                (DecodedBody(x) == SeenBehind(w, sessions, att) <==> KeepsBody(x, ranges)))
  {
    SameClaimSameBody(w, sessions, d, j, SessionBehind(w, sessions, att));
    BodyKeptIff(sessions[j].received, sessions[j].receivedRanges);
  }

  ghost predicate SentIsSeenAt(w: World, sessions: seq<Session>, att: LegAttestation) {
    && ReplyKept(w, sessions, att) && Witnessed(w, sessions, att)
    && SentBehind(w, sessions, att) == SeenBehind(w, sessions, att)
  }

  lemma SentIsSeen(w: World, sessions: seq<Session>, d: Decision, att: LegAttestation)
    requires ReplyKept(w, sessions, att) && CollisionFree(CryptoAt(w, {}), ValuesAt(sessions, d))
    ensures SentIsSeenAt(w, sessions, att)
  {
    var j: nat :| KeptBehind(w, sessions, att, j)
                  && SentBehind(w, sessions, att) == DecodedBody(sessions[j].received);
    ReplyIsRealIff(w, sessions, d, att, j);
  }

  lemma SameOrigins(w: World, sessions: seq<Session>, g: Graph)
    requires forall id | id in g && g[id].proof.Leg? :: SentIsSeenAt(w, sessions, g[id].proof.att)
    ensures RealOrigin(w, sessions, g) == WitnessedOrigin(w, sessions, g)
  {
  }

  lemma KeptIsReal(w: World, sessions: seq<Session>, d: Decision, g: Graph)
    requires RepliesKept(w, sessions, g) && CollisionFree(CryptoAt(w, {}), ValuesAt(sessions, d))
    ensures RealOrigin(w, sessions, g) == WitnessedOrigin(w, sessions, g)
  {
    forall id | id in g && g[id].proof.Leg? ensures SentIsSeenAt(w, sessions, g[id].proof.att) {
      SentIsSeen(w, sessions, d, g[id].proof.att);
    }
    SameOrigins(w, sessions, g);
  }

  /** The materials the buyer trusts in judging `d`. */
  ghost function TrustedAt(w: World, sessions: seq<Session>, d: Decision): Outputs {
    var rd := Read(d.delivery);
    Trusted(CryptoAt(w, ClaimsOf(w, sessions)), Index(rd.NodesOrNone()), rd.MaterialsOrNone())
  }

  /** The graph its answer rests on. */
  ghost function GraphAt(w: World, sessions: seq<Session>, d: Decision): Graph {
    RerunGraph(w.answersYes, TrustedAt(w, sessions, d), Read(d.delivery).NodesOrNone())
  }

  /** What the output depends on in that graph. */
  ghost function SoldGraph(w: World, sessions: seq<Session>, d: Decision): Graph {
    Cone(GraphAt(w, sessions, d), Read(d.delivery).OutputOrNone())
  }

  /** What the output depends on in the id index, the one graph a reader of the receipt sees. */
  ghost function SoldIndex(d: Decision): Graph {
    Cone(Index(Read(d.delivery).NodesOrNone()), Read(d.delivery).OutputOrNone())
  }

  /** Re-running those indexed nodes, over the materials trusted, gives the digests they commit to. */
  ghost predicate IndexReruns(w: World, sessions: seq<Session>, d: Decision) {
    Reruns(CryptoAt(w, ClaimsOf(w, sessions)), w.answersYes, SoldIndex(d), TrustedAt(w, sessions, d))
  }

  /** A receipt without cycles has none in either. */
  lemma SoldAcyclic(w: World, sessions: seq<Session>, d: Decision, rank: map<NodeId, nat>)
    requires NodesAcyclic(Read(d.delivery).NodesOrNone(), rank)
    ensures Acyclic(SoldGraph(w, sessions, d), rank) && Acyclic(SoldIndex(d), rank)
  {
    var nodes, output := Read(d.delivery).NodesOrNone(), Read(d.delivery).OutputOrNone();
    NoCycles(w.answersYes, TrustedAt(w, sessions, d), nodes, rank);
    ConeAcyclic(GraphAt(w, sessions, d), output, rank);
    ConeAcyclic(Index(nodes), output, rank);
  }

  /** The legs of the one are legs of the index. */
  lemma KeptInIndex(w: World, sessions: seq<Session>, d: Decision)
    requires RepliesKept(w, sessions, Index(Read(d.delivery).NodesOrNone()))
    ensures RepliesKept(w, sessions, SoldGraph(w, sessions, d))
  {
    RerunGraphLegs(w.answersYes, TrustedAt(w, sessions, d), Read(d.delivery).NodesOrNone());
  }

  lemma PassedValuesCovered(w: World, sessions: seq<Session>, d: Decision, g: Graph)
    requires Read(d.delivery).Reading?
    ensures Covers(ValuesAt(sessions, d), TrustedAt(w, sessions, d), WitnessedOrigin(w, sessions, g), d.delivery.body)
  {
    var rd, t := Read(d.delivery), TrustedAt(w, sessions, d);
    TrustedIsGenuine(CryptoAt(w, ClaimsOf(w, sessions)), Index(rd.receipt.nodes), rd.materials);
    forall id | id in t ensures t[id] in ValuesAt(sessions, d) {
      var i :| 0 <= i < |rd.materials| && rd.materials[i] == Entry(id, t[id]);
      assert rd.materials[i] in rd.materials;
    }
  }

  /** The notary's sessions are behind every leg of an accepted receipt. */
  lemma PassedOrigin(w: World, sessions: seq<Session>, d: Decision, g: Graph)
    requires WellFormed(w) && Passed(w, sessions, d)
    requires forall id | id in g :: g[id] in Read(d.delivery).receipt.nodes
    ensures forall id | id in g && g[id].proof.Leg? :: id in WitnessedOrigin(w, sessions, g)
    ensures BehindLegs(CryptoAt(w, ClaimsOf(w, sessions)), g, WitnessedOrigin(w, sessions, g))
  {
    forall id | id in g && g[id].proof.Leg? ensures Witnessed(w, sessions, g[id].proof.att) {
      PassedLeg(w, sessions, d, g[id]);
    }
  }

  /** What the output depends on in the buyer's graph is made of nodes of the receipt. */
  lemma PassedSoldGraph(w: World, sessions: seq<Session>, d: Decision)
    requires Passed(w, sessions, d)
    ensures var r, h, g := Read(d.delivery).receipt, GraphAt(w, sessions, d), SoldGraph(w, sessions, d);
            && Represents(h, r.nodes) && PartOf(g, h, r.outputNode)
            && forall id | id in g :: g[id] in r.nodes
  {
    var rd, c := Read(d.delivery), CryptoAt(w, ClaimsOf(w, sessions));
    AcceptedRerunGraph(c, w.answersYes, d.purchase, rd.receipt, rd.materials, rd.reference, d.delivery.body);
    RerunGraphHasOutput(c, w.answersYes, d.purchase, rd.receipt, rd.materials, rd.reference, d.delivery.body);
  }

  lemma PassedSoldIndex(w: World, sessions: seq<Session>, d: Decision)
    requires Passed(w, sessions, d)
    ensures var r, g := Read(d.delivery).receipt, SoldIndex(d);
            PartOf(g, Index(r.nodes), r.outputNode) && forall id | id in g :: g[id] in r.nodes
  {
    var r := Read(d.delivery).receipt;
    PassedAccepts(w, sessions, d);
    ConeIsPart(Index(r.nodes), r.outputNode);
    IndexIsLast(r.nodes);
  }

  /** The delivery is the evaluation of the graph the buyer ran over witnessed bytes. */
  lemma PassedIsGenuine(w: World, sessions: seq<Session>, d: Decision, rank: map<NodeId, nat>)
    requires WellFormed(w) && Passed(w, sessions, d) && CollisionFree(CryptoAt(w, {}), ValuesAt(sessions, d))
    requires Acyclic(SoldGraph(w, sessions, d), rank)
    ensures var r, g := Read(d.delivery).receipt, SoldGraph(w, sessions, d);
            var origin := WitnessedOrigin(w, sessions, g);
            && Represents(GraphAt(w, sessions, d), r.nodes)
            && (forall id | id in g && g[id].proof.Leg? :: id in origin)
            && Evaluate(w.answersYes, g, origin, rank, r.outputNode) == Some(d.delivery.body)
  {
    var rd, c, g := Read(d.delivery), CryptoAt(w, ClaimsOf(w, sessions)), SoldGraph(w, sessions, d);
    var origin, values := WitnessedOrigin(w, sessions, g), ValuesAt(sessions, d);
    PassedSoldGraph(w, sessions, d);
    PassedOrigin(w, sessions, d, g);
    PassedValuesCovered(w, sessions, d, g);
    assert CollisionFree(c, values);
    AcceptedBodyIsEvaluation(c, w.answersYes, d.purchase, rd.receipt, rd.materials, rd.reference, d.delivery.body,
                             g, origin, rank, values);
  }

  /** It is that of the id index too, if the indexed nodes re-run to their digests. */
  lemma PassedRunsIndex(w: World, sessions: seq<Session>, d: Decision, rank: map<NodeId, nat>)
    requires WellFormed(w) && Passed(w, sessions, d) && CollisionFree(CryptoAt(w, {}), ValuesAt(sessions, d))
    requires Acyclic(SoldIndex(d), rank)
    ensures var r, g := Read(d.delivery).receipt, SoldIndex(d);
            var origin := WitnessedOrigin(w, sessions, g);
            && (UniqueIds(r.nodes) ==> IndexReruns(w, sessions, d))
            && (IndexReruns(w, sessions, d) <==>
                InputsTrusted(g, TrustedAt(w, sessions, d))
                && RunsAsCommitted(CryptoAt(w, ClaimsOf(w, sessions)), w.answersYes, g, origin, rank))
            && (IndexReruns(w, sessions, d) ==>
                Evaluate(w.answersYes, g, origin, rank, r.outputNode) == Some(d.delivery.body))
  {
    var rd, c, g := Read(d.delivery), CryptoAt(w, ClaimsOf(w, sessions)), SoldIndex(d);
    var origin, values := WitnessedOrigin(w, sessions, g), ValuesAt(sessions, d);
    PassedSoldIndex(w, sessions, d);
    PassedOrigin(w, sessions, d, g);
    PassedValuesCovered(w, sessions, d, g);
    assert CollisionFree(c, values);
    IndexedGraphRunsIff(c, w.answersYes, d.purchase, rd.receipt, rd.materials, rd.reference, d.delivery.body,
                        g, origin, rank, values);
    if UniqueIds(rd.receipt.nodes) {
      UniqueIdsRerun(c, w.answersYes, d.purchase, rd.receipt, rd.materials, rd.reference, d.delivery.body, g);
    }
    if IndexReruns(w, sessions, d) {
      RerunIndexRuns(c, w.answersYes, d.purchase, rd.receipt, rd.materials, rd.reference, d.delivery.body,
                     g, origin, rank, values);
    }
  }

  /** The sessions signed before decision `d`. */
  function SignedBefore(s: State, d: Decision): seq<Session> {
    if d.at <= |s.sessions| then s.sessions[..d.at] else s.sessions
  }

  /** Decision `k` of a run accepted, and its buyer pins the notary's key. */
  ghost predicate AcceptedUnderPin(w: World, s: State, k: nat) {
    k < |s.decisions| && s.decisions[k].accepted && s.decisions[k].purchase.pinnedPubkey == w.notary.PublicKeyHex()
  }

  lemma AcceptedPassed(w: World, evs: seq<Event>, k: nat)
    requires AcceptedUnderPin(w, Run(w, evs), k)
    ensures var s := Run(w, evs);
            s.decisions[k].at <= |s.sessions| && Passed(w, SignedBefore(s, s.decisions[k]), s.decisions[k])
  {
    RunKeepsInv(w, evs);
    assert DecisionOk(w, Run(w, evs).sessions, Run(w, evs).decisions[k]);
  }

  /** Safety: in every run, an accepted receipt is for the pinned harness and bound to the payment whose
      reference came with the delivery, and every input that any of its nodes names is one of its nodes. */
  lemma AcceptedReceiptIsBound(w: World, evs: seq<Event>, k: nat)
    requires AcceptedUnderPin(w, Run(w, evs), k)
    ensures var d := Run(w, evs).decisions[k];
            Read(d.delivery).Reading? &&
            var r := Read(d.delivery).receipt;
            && r.manifestId == Harness.MANIFEST_ID && r.paymentReference == d.delivery.paymentReference
            && forall n, i | n in r.nodes && i in n.inputs :: exists m :: m in r.nodes && m.id == i
  {
    AcceptedPassed(w, evs, k);
    var s, d := Run(w, evs), Run(w, evs).decisions[k];
    PassedAccepts(w, SignedBefore(s, d), d);
    var r := Read(d.delivery).receipt;
    IndexIsLast(r.nodes);
    forall n, i | n in r.nodes && i in n.inputs ensures exists m :: m in r.nodes && m.id == i {
      var c := CryptoAt(w, ClaimsOf(w, SignedBefore(s, d)));
      assert NodeAccepted(c, ExpectedAt(w, c, d), Index(r.nodes), n);
      assert Index(r.nodes)[i] in r.nodes;
    }
  }

  /** Safety: in every run, every leg of an accepted receipt is of a session that the notary signed before
      the decision, with the configured upstream, and that upstream is the one host the buyer allows. */
  lemma AcceptedLegsAreWitnessed(w: World, evs: seq<Event>, k: nat, n: Node)
    requires WellFormed(w) && AcceptedUnderPin(w, Run(w, evs), k)
    requires n in Read(Run(w, evs).decisions[k].delivery).NodesOrNone() && n.proof.Leg?
    ensures var s, d := Run(w, evs), Run(w, evs).decisions[k];
            && d.at <= |s.sessions|
            && Witnessed(w, SignedBefore(s, d), n.proof.att)
            && n.proof.att.claim.host == w.upstream == d.purchase.expectedUpstream
            && n.outputDigest == n.proof.att.claim.responseDigest
  {
    AcceptedPassed(w, evs, k);
    var s, d := Run(w, evs), Run(w, evs).decisions[k];
    PassedLeg(w, SignedBefore(s, d), d, n);
  }

  /** Safety: in every run, the output of an accepted receipt depends in the indexed graph on at least one leg, and
      every leg it depends on there is of an earlier session in which the request body the notary saw is the buyer's. */
  lemma AcceptedOutputAnswersRequest(w: World, evs: seq<Event>, k: nat)
    requires WellFormed(w) && AcceptedUnderPin(w, Run(w, evs), k)
    requires var s, d := Run(w, evs), Run(w, evs).decisions[k];
             CollisionFree(CryptoAt(w, {}), ValuesAt(SignedBefore(s, d), d))
    ensures var s, d := Run(w, evs), Run(w, evs).decisions[k];
            d.at <= |s.sessions| && Read(d.delivery).Reading? &&
            var r := Read(d.delivery).receipt;
            OutputAnswered(w, SignedBefore(s, d), Index(r.nodes), r.outputNode, d.purchase.requestBody)
  {
    AcceptedPassed(w, evs, k);
    var s, d := Run(w, evs), Run(w, evs).decisions[k];
    var r := Read(d.delivery).receipt;
    PassedAnswers(w, SignedBefore(s, d), d, Index(r.nodes), r.outputNode);
  }

  /** The leg's session `j` really asked the request, not only in the notary's view. */
  ghost predicate AskedIn(w: World, sessions: seq<Session>, att: LegAttestation, request: bytes, j: nat) {
    WitnessedBy(w, sessions, att, j) && DecodedBody(sessions[j].sent) == request
  }

  ghost predicate Asked(w: World, sessions: seq<Session>, att: LegAttestation, request: bytes) {
    exists j: nat :: AskedIn(w, sessions, att, request, j)
  }

  /** Session `j` is the leg's, and what its prover hid left the body of the request as it was. */
  ghost predicate RequestKeptIn(w: World, sessions: seq<Session>, att: LegAttestation, j: nat) {
    WitnessedBy(w, sessions, att, j) && KeepsBody(sessions[j].sent, sessions[j].sentRanges)
  }

  ghost predicate RequestKept(w: World, sessions: seq<Session>, att: LegAttestation) {
    exists j: nat :: RequestKeptIn(w, sessions, att, j)
  }

  /** What was asked, in any session behind a leg that the accepted output depends on: the notary saw the buyer's
      request, and that is what was really sent exactly if what was hidden left it as it was. */
  lemma AcceptedRequestIsRealIff(w: World, evs: seq<Event>, k: nat, id: NodeId, j: nat)
    requires WellFormed(w) && AcceptedUnderPin(w, Run(w, evs), k)
    requires var s, d := Run(w, evs), Run(w, evs).decisions[k];
             var g := Index(Read(d.delivery).NodesOrNone());
             && CollisionFree(CryptoAt(w, {}), ValuesAt(SignedBefore(s, d), d))
             && ReachesLeg(g, Read(d.delivery).OutputOrNone(), id)
             && WitnessedBy(w, SignedBefore(s, d), g[id].proof.att, j)
    ensures var s, d := Run(w, evs), Run(w, evs).decisions[k];
            var x := SignedBefore(s, d)[j];
            && DecodedBody(x.SentSeen()) == d.purchase.requestBody
            && (KeepsBody(x.sent, x.sentRanges) ==> DecodedBody(x.sent) == d.purchase.requestBody)
            && (KeepsFraming(x.sent, x.sentRanges) ==>
                (DecodedBody(x.sent) == d.purchase.requestBody <==> KeepsBody(x.sent, x.sentRanges)))
  {
    AcceptedPassed(w, evs, k);
    var s, d := Run(w, evs), Run(w, evs).decisions[k];
    var x := SignedBefore(s, d)[j];
    PassedRequest(w, SignedBefore(s, d), d);
    SameDigestSameBytes(CryptoAt(w, {}), ValuesAt(SignedBefore(s, d), d), DecodedBody(x.SentSeen()),
                        d.purchase.requestBody);
    BodyKeptIff(x.sent, x.sentRanges);
  }

  /** The right question: if behind every leg the accepted output depends on is a session that left the body of the
      request as it was, each of those legs is of a session in which the buyer's request was really sent. */
  lemma AcceptedOutputWasAsked(w: World, evs: seq<Event>, k: nat, id: NodeId)
    requires WellFormed(w) && AcceptedUnderPin(w, Run(w, evs), k)
    requires var s, d := Run(w, evs), Run(w, evs).decisions[k];
             var g := Index(Read(d.delivery).NodesOrNone());
             && CollisionFree(CryptoAt(w, {}), ValuesAt(SignedBefore(s, d), d))
             && ReachesLeg(g, Read(d.delivery).OutputOrNone(), id)
             && RequestKept(w, SignedBefore(s, d), g[id].proof.att)
    ensures var s, d := Run(w, evs), Run(w, evs).decisions[k];
            Asked(w, SignedBefore(s, d), Index(Read(d.delivery).NodesOrNone())[id].proof.att, d.purchase.requestBody)
  {
    var s, d := Run(w, evs), Run(w, evs).decisions[k];
    var att := Index(Read(d.delivery).NodesOrNone())[id].proof.att;
    var j: nat :| RequestKeptIn(w, SignedBefore(s, d), att, j);
    AcceptedRequestIsRealIff(w, evs, k, id, j);
    assert AskedIn(w, SignedBefore(s, d), att, d.purchase.requestBody, j);
  }

  /** The main result.  In every run, with any sellers and any provers: if a buyer who pins the notary's key accepts
      a delivery, and what its output depends on in the graph the buyer ran has no cycle, then the delivered body is
      what running that gives on the response bodies that the notary saw, in sessions with the upstream signed before
      the decision.  The graph is made of the receipt's own nodes, one for each id, with the digests of the indexed
      ones. */
  lemma AcceptedDeliveryIsGenuine(w: World, evs: seq<Event>, k: nat, rank: map<NodeId, nat>)
    requires WellFormed(w) && AcceptedUnderPin(w, Run(w, evs), k)
    requires var s, d := Run(w, evs), Run(w, evs).decisions[k];
             && CollisionFree(CryptoAt(w, {}), ValuesAt(SignedBefore(s, d), d))
             && Acyclic(SoldGraph(w, SignedBefore(s, d), d), rank)
    ensures var s, d := Run(w, evs), Run(w, evs).decisions[k];
            d.at <= |s.sessions| && Read(d.delivery).Reading? &&
            var r, g := Read(d.delivery).receipt, SoldGraph(w, SignedBefore(s, d), d);
            var origin := WitnessedOrigin(w, SignedBefore(s, d), g);
            && Represents(GraphAt(w, SignedBefore(s, d), d), r.nodes)
            && (forall id | id in g && g[id].proof.Leg? :: id in origin)
            && Evaluate(w.answersYes, g, origin, rank, r.outputNode) == Some(d.delivery.body)
  {
    AcceptedPassed(w, evs, k);
    var s, d := Run(w, evs), Run(w, evs).decisions[k];
    PassedIsGenuine(w, SignedBefore(s, d), d, rank);
  }

  /** When that may be taken to be what the output depends on in the id index: the indexed nodes re-run to their
      digests, as the buyer could check before it trusts the body, and as they do when ids are unique.  It holds
      exactly if their inputs were all shipped and they run as they commit. */
  lemma AcceptedDeliveryRunsIndex(w: World, evs: seq<Event>, k: nat, rank: map<NodeId, nat>)
    requires WellFormed(w) && AcceptedUnderPin(w, Run(w, evs), k)
    requires var s, d := Run(w, evs), Run(w, evs).decisions[k];
             && CollisionFree(CryptoAt(w, {}), ValuesAt(SignedBefore(s, d), d))
             && Acyclic(SoldIndex(d), rank)
    ensures var s, d := Run(w, evs), Run(w, evs).decisions[k];
            d.at <= |s.sessions| && Read(d.delivery).Reading? &&
            var r, sessions, g := Read(d.delivery).receipt, SignedBefore(s, d), SoldIndex(d);
            var origin := WitnessedOrigin(w, sessions, g);
            && (UniqueIds(r.nodes) ==> IndexReruns(w, sessions, d))
            && (IndexReruns(w, sessions, d) <==>
                InputsTrusted(g, TrustedAt(w, sessions, d))
                && RunsAsCommitted(CryptoAt(w, ClaimsOf(w, sessions)), w.answersYes, g, origin, rank))
            && (IndexReruns(w, sessions, d) ==>
                Evaluate(w.answersYes, g, origin, rank, r.outputNode) == Some(d.delivery.body))
  {
    AcceptedPassed(w, evs, k);
    var s, d := Run(w, evs), Run(w, evs).decisions[k];
    PassedRunsIndex(w, SignedBefore(s, d), d, rank);
  }

  /** What acceptance is worth about the upstream itself: if behind each leg that the output depends on is a session
      whose prover left the body of the reply as it was, the delivered body is what running the graph gives on the
      bodies the upstream really sent. */
  lemma AcceptedDeliveryIsReal(w: World, evs: seq<Event>, k: nat, rank: map<NodeId, nat>)
    requires WellFormed(w) && AcceptedUnderPin(w, Run(w, evs), k)
    requires var s, d := Run(w, evs), Run(w, evs).decisions[k];
             && CollisionFree(CryptoAt(w, {}), ValuesAt(SignedBefore(s, d), d))
             && Acyclic(SoldGraph(w, SignedBefore(s, d), d), rank)
             && RepliesKept(w, SignedBefore(s, d), SoldGraph(w, SignedBefore(s, d), d))
    ensures var s, d := Run(w, evs), Run(w, evs).decisions[k];
            d.at <= |s.sessions| && Read(d.delivery).Reading? &&
            var r, g := Read(d.delivery).receipt, SoldGraph(w, SignedBefore(s, d), d);
            var origin := RealOrigin(w, SignedBefore(s, d), g);
            && Represents(GraphAt(w, SignedBefore(s, d), d), r.nodes)
            && (forall id | id in g && g[id].proof.Leg? :: id in origin)
            && Evaluate(w.answersYes, g, origin, rank, r.outputNode) == Some(d.delivery.body)
  {
    AcceptedDeliveryIsGenuine(w, evs, k, rank);
    var s, d := Run(w, evs), Run(w, evs).decisions[k];
    KeptIsReal(w, SignedBefore(s, d), d, SoldGraph(w, SignedBefore(s, d), d));
  }

  /** The condition is exact, leg by leg: in any session behind a leg of an accepted receipt, the upstream really sent
      the body that the leg stands for exactly if what was hidden left it as it was. */
  lemma AcceptedReplyIsRealIff(w: World, evs: seq<Event>, k: nat, n: Node, j: nat)
    requires AcceptedUnderPin(w, Run(w, evs), k)
    requires var s, d := Run(w, evs), Run(w, evs).decisions[k];
             && CollisionFree(CryptoAt(w, {}), ValuesAt(SignedBefore(s, d), d))
             && n in Read(d.delivery).NodesOrNone() && n.proof.Leg?
             && WitnessedBy(w, SignedBefore(s, d), n.proof.att, j)
    ensures var s, d := Run(w, evs), Run(w, evs).decisions[k];
            var sessions := SignedBefore(s, d);
            var x := sessions[j];
            && Witnessed(w, sessions, n.proof.att)
            && (KeepsBody(x.received, x.receivedRanges) ==>
                DecodedBody(x.received) == SeenBehind(w, sessions, n.proof.att))
            && (KeepsFraming(x.received, x.receivedRanges) ==>
                (DecodedBody(x.received) == SeenBehind(w, sessions, n.proof.att)
                 <==> KeepsBody(x.received, x.receivedRanges)))
  {
    var s, d := Run(w, evs), Run(w, evs).decisions[k];
    ReplyIsRealIff(w, SignedBefore(s, d), d, n.proof.att, j);
  }
}
