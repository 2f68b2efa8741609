/** Receipts in which two nodes share an id.  The id index keeps the last of them, and the verifier takes the first
    digest recomputed for the id: what is accepted need not be what the indexed graph gives. */
module RepeatedIds {
  import opened Bytes
  import opened Core
  import opened Verifier
  import opened Materials
  import opened Harness
  import opened Buyer
  import opened Soundness
  import opened Reseller
  import opened Protocol
  import opened Exchanges

  const LEG1 := Ascii("leg1")

  lemma IdsDiffer()
    ensures LEG0 != LEG1 && LEG0 != VERDICT && LEG1 != VERDICT && Less(LEG0, LEG1)
  {
    assert LEG0[0] == LEG1[0] == 108 && VERDICT[0] == 118;
    assert LEG0[3] == 48 && LEG1[3] == 49;
    assert LEG0[1] == LEG1[1] && LEG0[2] == LEG1[2];
    assert LEG0[1..][0] == LEG0[1] && LEG1[1..][0] == LEG1[1];
    assert LEG0[1..][1..][0] == LEG0[2] && LEG1[1..][1..][0] == LEG1[2];
    assert LEG0[1..][1..][1..][0] == LEG0[3] && LEG1[1..][1..][1..][0] == LEG1[3];
  }

  /** The first node named "verdict" is over the leg `b` and the second over the leg `a`; both commit to a yes. */
  function DoubledNodes(c: Crypto, a: LegAttestation, b: LegAttestation): seq<Node> {
    [LegNode(a), LegNode(b).(id := LEG1), VerdictNode(c, YES).(inputs := [LEG1]), VerdictNode(c, YES)]
  }

  function DoubledReceipt(c: Crypto, a: LegAttestation, b: LegAttestation, reference: bytes): HarnessReceipt {
    HarnessReceipt(Harness.MANIFEST_ID, DoubledNodes(c, a, b), VERDICT, Some(reference))
  }

  function DoubledMaterials(answerA: bytes, answerB: bytes): (m: seq<Entry<bytes>>)
    ensures Sorted(m)
  {
    IdsDiffer();
    [Entry(LEG0, answerA), Entry(LEG1, answerB)]
  }

  function DoubledDelivery(c: Crypto, a: LegAttestation, b: LegAttestation, answerA: bytes, answerB: bytes,
                           reference: bytes): Delivery {
    Delivery(200, Some(reference), Some(Core.ToHeader(DoubledReceipt(c, a, b, reference))),
             Some(Materials.ToHeader(DoubledMaterials(answerA, answerB))), YES)
  }

  // ---------------------------------------------------------------- what the buyer computes

  lemma FourSnoc(a: Node, b: Node, c: Node, d: Node)
    ensures [a] == [] + [a] && [a, b] == [a] + [b] && [a, b, c] == [a, b] + [c] && [a, b, c, d] == [a, b, c] + [d]
  {
  }

  lemma IndexSnoc(nodes: seq<Node>, n: Node)
    ensures Index(nodes + [n]) == Index(nodes)[n.id := n]
  {
    assert (nodes + [n])[..|nodes|] == nodes;
  }

  lemma IndexFour(a: Node, b: Node, c: Node, d: Node)
    ensures Index([a, b, c, d]) == map[a.id := a][b.id := b][c.id := c][d.id := d]
  {
    FourSnoc(a, b, c, d);
    IndexSnoc([], a);
    IndexSnoc([a], b);
    IndexSnoc([a, b], c);
    IndexSnoc([a, b, c], d);
  }

  lemma DoubledIndex(c: Crypto, a: LegAttestation, b: LegAttestation)
    ensures Index(DoubledNodes(c, a, b)) ==
            map[LEG0 := LegNode(a), LEG1 := LegNode(b).(id := LEG1), VERDICT := VerdictNode(c, YES)]
  {
    var n := DoubledNodes(c, a, b);
    IdsDiffer();
    IndexFour(n[0], n[1], n[2], n[3]);
    assert n == [n[0], n[1], n[2], n[3]];
  }

  lemma DoubledTrusted(c: Crypto, a: LegAttestation, b: LegAttestation, answerA: bytes, answerB: bytes)
    requires a.claim.responseDigest == c.Sha256Hex(answerA) && b.claim.responseDigest == c.Sha256Hex(answerB)
    ensures var g, m := Index(DoubledNodes(c, a, b)), DoubledMaterials(answerA, answerB);
            && AllPassed(MaterialChecks(c, g, m))
            && Trusted(c, g, m) == map[LEG0 := answerA, LEG1 := answerB]
  {
    var g, m := Index(DoubledNodes(c, a, b)), DoubledMaterials(answerA, answerB);
    IdsDiffer();
    DoubledIndex(c, a, b);
    assert m[..1] == [Entry(LEG0, answerA)];
    assert Trusted(c, g, m[..1]) == map[LEG0 := answerA];
  }

  lemma RecomputedSnoc(c: Crypto, answersYes: bytes -> bool, trusted: Outputs, nodes: seq<Node>, n: Node)
    ensures var out := Output(answersYes, trusted, n);
            Recomputed(c, answersYes, trusted, nodes + [n]) ==
            Recomputed(c, answersYes, trusted, nodes) + if out.None? then [] else [(n.id, c.Sha256Hex(out.value))]
  {
    assert (nodes + [n])[..|nodes|] == nodes;
  }

  lemma VerdictOutput(c: Crypto, answersYes: bytes -> bool, trusted: Outputs, id: NodeId)
    requires id in trusted
    ensures Output(answersYes, trusted, VerdictNode(c, YES).(inputs := [id]))
            == Some(StartsWithYes(answersYes, trusted[id]))
  {
    var inputs := InputValues(trusted, [id]);
    assert inputs.Some?;
  }

  lemma DoubledRecomputed(c: Crypto, answersYes: bytes -> bool, a: LegAttestation, b: LegAttestation,
                          answerA: bytes, answerB: bytes)
    requires answersYes(answerB)
    ensures var trusted := map[LEG0 := answerA, LEG1 := answerB];
            FindRecomputed(Recomputed(c, answersYes, trusted, DoubledNodes(c, a, b)), VERDICT) == Some(c.Sha256Hex(YES))
  {
    var n, trusted := DoubledNodes(c, a, b), map[LEG0 := answerA, LEG1 := answerB];
    IdsDiffer();
    VerdictOutput(c, answersYes, trusted, LEG1);
    FourSnoc(n[0], n[1], n[2], n[3]);
    RecomputedSnoc(c, answersYes, trusted, [], n[0]);
    RecomputedSnoc(c, answersYes, trusted, [n[0]], n[1]);
    RecomputedSnoc(c, answersYes, trusted, [n[0], n[1]], n[2]);
    assert Recomputed(c, answersYes, trusted, [n[0], n[1], n[2]]) == [(VERDICT, c.Sha256Hex(YES))];
    RecomputedSnoc(c, answersYes, trusted, [n[0], n[1], n[2]], n[3]);
  }

  lemma DoubledCone(c: Crypto, a: LegAttestation, b: LegAttestation)
    ensures var g := Index(DoubledNodes(c, a, b));
            VERDICT in g && g[VERDICT] == VerdictNode(c, YES) && VERDICT in Cone(g, VERDICT)
            && forall id | id in Cone(g, VERDICT) && g[id].proof.Interior? :: id == VERDICT
  {
    IdsDiffer();
    DoubledIndex(c, a, b);
    ReachesSelf(Index(DoubledNodes(c, a, b)), VERDICT);
  }

  /** In the indexed graph the sold output depends on the leg `a` alone. */
  lemma DoubledReach(c: Crypto, a: LegAttestation, b: LegAttestation, id: NodeId)
    ensures ReachesLeg(Index(DoubledNodes(c, a, b)), VERDICT, id) <==> id == LEG0
  {
    var g := Index(DoubledNodes(c, a, b));
    IdsDiffer();
    DoubledIndex(c, a, b);
    ReachesSelf(g, VERDICT);
    assert Edge(g, VERDICT, LEG0);
    ReachesStep(g, VERDICT, VERDICT, LEG0);
    if Reaches(g, VERDICT, id) {
      ClosedHoldsReachable(g, {VERDICT, LEG0}, VERDICT, id);
    }
  }

  /** Running the indexed graph gives the verdict on the answer of `a`. */
  lemma DoubledEvaluation(c: Crypto, answersYes: bytes -> bool, a: LegAttestation, b: LegAttestation, origin: Outputs)
    requires LEG0 in origin
    ensures var g, rank: map<NodeId, nat> := Index(DoubledNodes(c, a, b)), map[LEG0 := 0, VERDICT := 1];
            Acyclic(g, rank) &&
            Evaluate(answersYes, g, origin, rank, VERDICT) == Some(StartsWithYes(answersYes, origin[LEG0]))
  {
    var g, rank: map<NodeId, nat> := Index(DoubledNodes(c, a, b)), map[LEG0 := 0, VERDICT := 1];
    IdsDiffer();
    DoubledIndex(c, a, b);
    assert Acyclic(g, rank);
    var inputs := g[VERDICT].inputs;
    assert inputs == [LEG0] && inputs[1..] == [];
    assert Evaluate(answersYes, g, origin, rank, LEG0) == Some(origin[LEG0]);
    assert EvaluateAll(answersYes, g, origin, rank, VERDICT, inputs[1..]) == Some([]);
    assert [origin[LEG0]] + [] == [origin[LEG0]];
    assert EvaluateAll(answersYes, g, origin, rank, VERDICT, inputs) == Some([origin[LEG0]]);
  }

  // ---------------------------------------------------------------- what the buyer decides

  lemma DoubledReads(c: Crypto, a: LegAttestation, b: LegAttestation, answerA: bytes, answerB: bytes, reference: bytes)
    ensures Read(DoubledDelivery(c, a, b, answerA, answerB, reference)) ==
            Reading(DoubledReceipt(c, a, b, reference), DoubledMaterials(answerA, answerB), reference)
  {
    var r, m := DoubledReceipt(c, a, b, reference), DoubledMaterials(answerA, answerB);
    IdsDiffer();
    Core.HeaderRoundTrip(r, [], []);
    assert [] + (Core.ToHeader(r) + []) == Core.ToHeader(r);
    Materials.HeaderRoundTrip(m, [], []);
    assert [] + (Materials.ToHeader(m) + []) == Materials.ToHeader(m);
  }

  lemma DoubledNodesAccepted(c: Crypto, p: Purchase, a: LegAttestation, b: LegAttestation, reference: bytes,
                             recomputed: seq<(NodeId, bytes)>)
    requires Attested(c, p, a) && Attested(c, p, b)
    requires FindRecomputed(recomputed, VERDICT) == Some(c.Sha256Hex(YES))
    ensures var nodes := DoubledNodes(c, a, b);
            forall n | n in nodes ::
              NodeAccepted(c, Expected(c, p, reference, YES, recomputed), Index(nodes), n)
  {
    DoubledIndex(c, a, b);
  }

  /** A receipt with a repeated id is accepted with a yes for a body, while the one leg its output depends on in the
      indexed graph answered the buyer's request with a no, which is also what running that graph gives.  The yes
      comes from a second leg, which need not answer the request.  The check that exposes it is to re-run the indexed
      nodes, if a yes and a no have different digests. */
  lemma DoubledIsAccepted(c: Crypto, answersYes: bytes -> bool, p: Purchase, a: LegAttestation, b: LegAttestation,
                          answerA: bytes, answerB: bytes, reference: bytes)
    requires Agrees(c, p, a) && a.claim.responseDigest == c.Sha256Hex(answerA) && !answersYes(answerA)
    requires Attested(c, p, b) && b.claim.responseDigest == c.Sha256Hex(answerB) && answersYes(answerB)
    ensures var d := DoubledDelivery(c, a, b, answerA, answerB, reference);
            && Accepted(c, answersYes, p, d) && d.body == YES
            && Read(d) == Reading(DoubledReceipt(c, a, b, reference), DoubledMaterials(answerA, answerB), reference)
    ensures var g := Index(DoubledNodes(c, a, b));
            var trusted := Trusted(c, g, DoubledMaterials(answerA, answerB));
            && (forall id :: ReachesLeg(g, VERDICT, id) <==> id == LEG0)
            && Acyclic(g, map[LEG0 := 0, VERDICT := 1])
            && Evaluate(answersYes, g, trusted, map[LEG0 := 0, VERDICT := 1], VERDICT) == Some(NO)
            && (Reruns(c, answersYes, Cone(g, VERDICT), trusted) <==> c.Sha256Hex(NO) == c.Sha256Hex(YES))
  {
    var r, m := DoubledReceipt(c, a, b, reference), DoubledMaterials(answerA, answerB);
    var g := Index(r.nodes);
    var trusted := Trusted(c, g, m);
    var recomputed := Recomputed(c, answersYes, trusted, r.nodes);
    var e := Expected(c, p, reference, YES, recomputed);
    DoubledReads(c, a, b, answerA, answerB, reference);
    DoubledTrusted(c, a, b, answerA, answerB);
    DoubledRecomputed(c, answersYes, a, b, answerA, answerB);
    DoubledAccepts(c, p, a, b, reference, recomputed);
    ChecksDecide(c, r, e);
    AllPassedAppend(MaterialChecks(c, g, m), Checks(c, r, e));
    forall id ensures ReachesLeg(g, VERDICT, id) <==> id == LEG0 {
      DoubledReach(c, a, b, id);
    }
    IdsDiffer();
    DoubledEvaluation(c, answersYes, a, b, trusted);
    DoubledReruns(c, answersYes, a, b, trusted);
  }

  lemma DoubledAnswers(c: Crypto, a: LegAttestation, b: LegAttestation, digest: bytes)
    requires a.claim.requestDigest == digest
    ensures AnswersTheRequest(Index(DoubledNodes(c, a, b)), VERDICT, digest)
  {
    var g := Index(DoubledNodes(c, a, b));
    IdsDiffer();
    DoubledIndex(c, a, b);
    DoubledReach(c, a, b, LEG0);
    forall id | ReachesLeg(g, VERDICT, id) ensures g[id].proof.att.claim.requestDigest == digest {
      DoubledReach(c, a, b, id);
    }
  }

  lemma DoubledAccepts(c: Crypto, p: Purchase, a: LegAttestation, b: LegAttestation, reference: bytes,
                       recomputed: seq<(NodeId, bytes)>)
    requires Agrees(c, p, a) && Attested(c, p, b)
    requires FindRecomputed(recomputed, VERDICT) == Some(c.Sha256Hex(YES))
    ensures Accepts(c, DoubledReceipt(c, a, b, reference), Expected(c, p, reference, YES, recomputed))
  {
    var g := Index(DoubledNodes(c, a, b));
    assert VERDICT in g && g[VERDICT].outputDigest == c.Sha256Hex(YES) by {
      DoubledIndex(c, a, b);
    }
    DoubledAnswers(c, a, b, c.Sha256Hex(p.requestBody));
    DoubledNodesAccepted(c, p, a, b, reference, recomputed);
  }

  lemma DoubledReruns(c: Crypto, answersYes: bytes -> bool, a: LegAttestation, b: LegAttestation, trusted: Outputs)
    requires LEG0 in trusted && !answersYes(trusted[LEG0])
    ensures Reruns(c, answersYes, Cone(Index(DoubledNodes(c, a, b)), VERDICT), trusted)
            <==> c.Sha256Hex(NO) == c.Sha256Hex(YES)
  {
    var g := Cone(Index(DoubledNodes(c, a, b)), VERDICT);
    DoubledCone(c, a, b);
    VerdictOutput(c, answersYes, trusted, LEG0);
    assert g[VERDICT] == VerdictNode(c, YES).(inputs := [LEG0]);
    assert RerunsAt(c, answersYes, trusted, g[VERDICT]) <==> c.Sha256Hex(NO) == c.Sha256Hex(YES);
  }

  // ---------------------------------------------------------------- in every run

  lemma BothClaimsStaySigned(w: World, evs: seq<Event>, x: Exchange, y: Exchange, more: seq<Event>)
    requires Notarized(w, x).Ok? && Notarized(w, y).Ok?
    ensures var claims := ClaimsOf(w, Run(w, evs + [Notarize(x)] + [Notarize(y)] + more).sessions);
            Notarized(w, x).value.claim in claims && Notarized(w, y).value.claim in claims
  {
    ClaimStaysSigned(w, evs, x, [Notarize(y)] + more);
    Assoc(evs + [Notarize(x)], [Notarize(y)], more);
    ClaimStaysSigned(w, evs + [Notarize(x)], y, more);
  }

  lemma DoubledIsJudged(w: World, claims: set<LegClaim>, x: Exchange, y: Exchange, p: Purchase, reference: bytes)
    requires WellFormed(w) && Notarized(w, x).Ok? && Notarized(w, y).Ok? && Matches(w, p, x.RequestSeen())
    requires Notarized(w, x).value.claim in claims && Notarized(w, y).value.claim in claims
    requires !w.answersYes(x.ReplySeen()) && w.answersYes(y.ReplySeen())
    ensures Accepted(CryptoAt(w, claims), w.answersYes, p,
                     DoubledDelivery(CryptoAt(w, {}), Notarized(w, x).value, Notarized(w, y).value,
                                     x.ReplySeen(), y.ReplySeen(), reference))
  {
    SignedIsAttested(w, claims, x);
    SignedIsAttested(w, claims, y);
    SignedAgreesIff(w, claims, x, p);
    SignedAgreesIff(w, claims, y, p);
    DoubledIsAccepted(CryptoAt(w, claims), w.answersYes, p, Notarized(w, x).value, Notarized(w, y).value,
                      x.ReplySeen(), y.ReplySeen(), reference);
  }

  /** What any seller can deliver in any run, from any two notarised exchanges: the answer seen to the buyer's request
      is a no, the answer seen to some request is a yes, and the buyer accepts a yes. */
  lemma DoubledInAnyRun(w: World, evs: seq<Event>, more: seq<Event>, x: Exchange, y: Exchange, p: Purchase,
                        reference: bytes)
    requires WellFormed(w) && Notarized(w, x).Ok? && Notarized(w, y).Ok? && Matches(w, p, x.RequestSeen())
    requires !w.answersYes(x.ReplySeen()) && w.answersYes(y.ReplySeen())
    ensures var d := DoubledDelivery(CryptoAt(w, {}), Notarized(w, x).value, Notarized(w, y).value,
                                     x.ReplySeen(), y.ReplySeen(), reference);
            && LastDecision(Run(w, evs + [Notarize(x)] + [Notarize(y)] + more + [Deliver(p, d)]), p, d, true)
            && d.body == YES && StartsWithYes(w.answersYes, x.ReplySeen()) == NO
  {
    var before := evs + [Notarize(x)] + [Notarize(y)] + more;
    var claims := ClaimsOf(w, Run(w, before).sessions);
    BothClaimsStaySigned(w, evs, x, y, more);
    DoubledIsJudged(w, claims, x, y, p, reference);
    DeliveryIsDecided(w, before, p, DoubledDelivery(CryptoAt(w, {}), Notarized(w, x).value, Notarized(w, y).value,
                                                    x.ReplySeen(), y.ReplySeen(), reference), true);
  }

  /** So it is even if both exchanges are honest: the upstream's real answer to the buyer's request is a no, its real
      answer to some request is a yes. */
  lemma RepeatedIdInAnyRun(w: World, evs: seq<Event>, more: seq<Event>, q: Request, reply: Reply, time: bytes,
                           other: Request, otherReply: Reply, otherTime: bytes, p: Purchase, reference: bytes)
    requires WellFormed(w) && q.Valid() && reply.Valid() && other.Valid() && otherReply.Valid()
    requires Matches(w, p, q.body) && !w.answersYes(reply.Body()) && w.answersYes(otherReply.Body())
    ensures var x, y := HonestExchange(w, q, reply, time), HonestExchange(w, other, otherReply, otherTime);
            x.Some? && y.Some? && Notarized(w, x.value).Ok? && Notarized(w, y.value).Ok? &&
            var d := DoubledDelivery(CryptoAt(w, {}), Notarized(w, x.value).value, Notarized(w, y.value).value,
                                     reply.Body(), otherReply.Body(), reference);
            var before := evs + [Notarize(x.value)] + [Notarize(y.value)] + more;
            && LastDecision(Run(w, before + [Deliver(p, d)]), p, d, true)
            && d.body == YES && StartsWithYes(w.answersYes, reply.Body()) == NO
  {
    HonestIsSeen(w, q, reply, time);
    HonestIsSeen(w, other, otherReply, otherTime);
    DoubledInAnyRun(w, evs, more, HonestExchange(w, q, reply, time).value,
                    HonestExchange(w, other, otherReply, otherTime).value, p, reference);
  }
}
