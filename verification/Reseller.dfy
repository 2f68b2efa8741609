/** The seller: from the upstream answer and the notary's attestation to a paid response. */
module Reseller {
  import opened Bytes
  import opened Core
  import opened Verifier
  import opened Materials
  import opened Harness
  import opened Buyer
  import opened Soundness
  import Json

  datatype Mode = Honest | CheatSubstitute

  const LEG0 := Ascii("leg0")
  const VERDICT := Ascii("verdict")

  /** The attestation as the prover reads it off the notary's stream. */
  function ReadAttestation(stream: bytes): Option<LegAttestation> {
    var j := Json.FromSlice(stream);
    if j.None? then None else AttestationFromJson(j.value)
  }

  function LegNode(leg: LegAttestation): Node {
    Node(LEG0, [], leg.claim.responseDigest, Leg(leg))
  }

  function VerdictNode(c: Crypto, verdict: bytes): Node {
    Node(VERDICT, [LEG0], c.Sha256Hex(verdict), Interior(Recompute(VERDICT_FN_ID)))
  }

  function Bundle(c: Crypto, leg: LegAttestation, verdict: bytes, reference: bytes): HarnessReceipt {
    HarnessReceipt(Harness.MANIFEST_ID, [LegNode(leg), VerdictNode(c, verdict)], VERDICT, Some(reference))
  }

  /** The response half of `messages`, after payment and the notarised call. */
  function Respond(c: Crypto, answersYes: bytes -> bool, substitute: bytes -> bytes, mode: Mode,
                   responseBody: bytes, leg: LegAttestation, reference: bytes): Delivery {
    var legOutput := if mode.Honest? then responseBody else substitute(responseBody);
    var verdict := StartsWithYes(answersYes, legOutput);
    var materials := Insert([], LEG0, legOutput);
    Delivery(200, Some(reference), Some(Core.ToHeader(Bundle(c, leg, verdict, reference))),
             Some(Materials.ToHeader(materials)), verdict)
  }

  /** What is sent, name by name: the verdict on what is shipped, the two nodes, and the shipped bytes beside them. */
  lemma ResponseIs(c: Crypto, answersYes: bytes -> bool, substitute: bytes -> bytes, mode: Mode,
                   responseBody: bytes, leg: LegAttestation, reference: bytes)
    ensures var shipped := if mode == CheatSubstitute then substitute(responseBody) else responseBody;
            var verdict := if answersYes(shipped) then Ascii("1") else Ascii("0");
            var nodes := [Node(Ascii("leg0"), [], leg.claim.responseDigest, Leg(leg)),
                          Node(Ascii("verdict"), [Ascii("leg0")], c.Sha256Hex(verdict),
                               Interior(Recompute(Ascii("starts_with_yes"))))];
            var receipt := HarnessReceipt(Ascii("starts-with-yes-v1"), nodes, Ascii("verdict"), Some(reference));
            Respond(c, answersYes, substitute, mode, responseBody, leg, reference)
            == Delivery(200, Some(reference), Some(Core.ToHeader(receipt)),
                        Some(Materials.ToHeader([Entry(Ascii("leg0"), shipped)])), verdict)
  {
    var shipped := if mode == CheatSubstitute then substitute(responseBody) else responseBody;
    assert Insert([], LEG0, shipped) == [Entry(Ascii("leg0"), shipped)];
    assert YES == Ascii("1") && NO == Ascii("0");
  }

  // ---------------------------------------------------------------- what the buyer reads and checks

  lemma ResponseReads(c: Crypto, answersYes: bytes -> bool, substitute: bytes -> bytes, mode: Mode,
                      responseBody: bytes, leg: LegAttestation, reference: bytes)
    ensures var legOutput := if mode.Honest? then responseBody else substitute(responseBody);
            var verdict := StartsWithYes(answersYes, legOutput);
            Read(Respond(c, answersYes, substitute, mode, responseBody, leg, reference))
            == Reading(Bundle(c, leg, verdict, reference), [Entry(LEG0, legOutput)], reference)
  {
    var legOutput := if mode.Honest? then responseBody else substitute(responseBody);
    var verdict := StartsWithYes(answersYes, legOutput);
    var r, m := Bundle(c, leg, verdict, reference), Insert([], LEG0, legOutput);
    assert m == [Entry(LEG0, legOutput)];
    Core.HeaderRoundTrip(r, [], []);
    assert [] + (Core.ToHeader(r) + []) == Core.ToHeader(r);
    Materials.HeaderRoundTrip(m, [], []);
    assert [] + (Materials.ToHeader(m) + []) == Materials.ToHeader(m);
  }

  lemma BundleGraph(c: Crypto, leg: LegAttestation, verdict: bytes, reference: bytes)
    ensures LEG0 != VERDICT
    ensures Index(Bundle(c, leg, verdict, reference).nodes) ==
            map[LEG0 := LegNode(leg), VERDICT := VerdictNode(c, verdict)]
  {
    var nodes := [LegNode(leg), VerdictNode(c, verdict)];
    assert LEG0[0] == 108 && VERDICT[0] == 118;
    assert nodes[..1] == [LegNode(leg)];
    assert nodes[..1][..0] == [];
    assert Index(nodes[..1]) == map[LEG0 := LegNode(leg)];
  }

  /** The seller's own receipt is one the graph theorems speak of. */
  lemma ResponseIsWellFormed(c: Crypto, answersYes: bytes -> bool, substitute: bytes -> bytes, mode: Mode,
                             responseBody: bytes, leg: LegAttestation, reference: bytes)
    ensures var nodes := Read(Respond(c, answersYes, substitute, mode, responseBody, leg, reference)).NodesOrNone();
            UniqueIds(nodes) && NodesAcyclic(nodes, map[LEG0 := 0, VERDICT := 1])
  {
    var legOutput := if mode.Honest? then responseBody else substitute(responseBody);
    ResponseReads(c, answersYes, substitute, mode, responseBody, leg, reference);
    BundleGraph(c, leg, StartsWithYes(answersYes, legOutput), reference);
  }

  /** Its one leg is the attestation. */
  lemma ResponseLegs(c: Crypto, answersYes: bytes -> bool, substitute: bytes -> bytes, mode: Mode,
                     responseBody: bytes, leg: LegAttestation, reference: bytes)
    ensures var g := Index(Read(Respond(c, answersYes, substitute, mode, responseBody, leg, reference)).NodesOrNone());
            forall id | id in g && g[id].proof.Leg? :: g[id].proof.att == leg
  {
    var legOutput := if mode.Honest? then responseBody else substitute(responseBody);
    ResponseReads(c, answersYes, substitute, mode, responseBody, leg, reference);
    BundleGraph(c, leg, StartsWithYes(answersYes, legOutput), reference);
  }

  /** In the two-node graph the sold output depends on exactly the one leg. */
  lemma BundleAnswers(c: Crypto, leg: LegAttestation, verdict: bytes, reference: bytes, digest: bytes)
    ensures AnswersTheRequest(Index(Bundle(c, leg, verdict, reference).nodes), VERDICT, digest)
            <==> leg.claim.requestDigest == digest
  {
    var g := Index(Bundle(c, leg, verdict, reference).nodes);
    BundleGraph(c, leg, verdict, reference);
    ReachesSelf(g, VERDICT);
    assert Edge(g, VERDICT, LEG0);
    ReachesStep(g, VERDICT, VERDICT, LEG0);
    assert ReachesLeg(g, VERDICT, LEG0);
  }

  /** The buyer's checks on the bundle that fail, in order. */
  function Failing(checks: seq<Check>): seq<CheckName> {
    if checks == [] then []
    else (if checks[0].passed then [] else [checks[0].name]) + Failing(checks[1..])
  }

  lemma {:induction false} FailingAppend(a: seq<Check>, b: seq<Check>)
    ensures Failing(a + b) == Failing(a) + Failing(b)
  {
    if a == [] {
      assert a + b == b;
    } else {
      assert (a + b)[1..] == a[1..] + b;
      FailingAppend(a[1..], b);
    }
  }

  lemma {:induction false} NoneFailing(checks: seq<Check>)
    ensures AllPassed(checks) <==> Failing(checks) == []
  {
    if checks != [] {
      NoneFailing(checks[1..]);
      assert checks == [checks[0]] + checks[1..];
      AllPassedAppend([checks[0]], checks[1..]);
      assert AllPassed([checks[0]]) <==> checks[0].passed by { assert checks[0] in [checks[0]]; }
    }
  }

  /** The attestation verifies under the pinned key, and its claim names the expected host. */
  predicate Attested(c: Crypto, p: Purchase, leg: LegAttestation) {
    && VerifyProof(c, leg).Ok?
    && leg.claim.host == p.expectedUpstream
    && leg.proof.pubkey == p.pinnedPubkey
  }

  /** Purchase and attestation agree: moreover the claim answers the request sent. */
  predicate Agrees(c: Crypto, p: Purchase, leg: LegAttestation) {
    Attested(c, p, leg) && leg.claim.requestDigest == c.Sha256Hex(p.requestBody)
  }

  lemma MaterialsOfBundle(c: Crypto, leg: LegAttestation, verdict: bytes, reference: bytes, legOutput: bytes)
    ensures var g := Index(Bundle(c, leg, verdict, reference).nodes);
            var ok := c.Sha256Hex(legOutput) == leg.claim.responseDigest;
            && MaterialChecks(c, g, [Entry(LEG0, legOutput)]) == [Check(MaterialMatches(LEG0), ok)]
            && Trusted(c, g, [Entry(LEG0, legOutput)]) == if ok then map[LEG0 := legOutput] else map[]
  {
    BundleGraph(c, leg, verdict, reference);
    var m := [Entry(LEG0, legOutput)];
    assert m[..0] == [];
  }

  lemma RecomputedOfBundle(c: Crypto, answersYes: bytes -> bool, leg: LegAttestation, verdict: bytes, reference: bytes,
                           trusted: Outputs)
    ensures Recomputed(c, answersYes, trusted, Bundle(c, leg, verdict, reference).nodes) ==
            if LEG0 in trusted then [(VERDICT, c.Sha256Hex(StartsWithYes(answersYes, trusted[LEG0])))] else []
  {
    var nodes := [LegNode(leg), VerdictNode(c, verdict)];
    assert nodes[..1] == [LegNode(leg)] && nodes[..1][..0] == [];
    assert Recomputed(c, answersYes, trusted, nodes[..1]) == [];
    var inputs := InputValues(trusted, [LEG0]);
    assert inputs.Some? <==> LEG0 in trusted by { assert LEG0 in [LEG0]; }
    if inputs.Some? {
      assert inputs.value == [trusted[LEG0]];
    }
  }

  /** Every check on the bundle's nodes, when purchase and attestation agree. */
  lemma NodeChecksOfBundle(c: Crypto, p: Purchase, leg: LegAttestation, verdict: bytes, reference: bytes, body: bytes,
                           recomputed: seq<(NodeId, bytes)>)
    requires Agrees(c, p, leg)
    requires FindRecomputed(recomputed, VERDICT) == None
             || FindRecomputed(recomputed, VERDICT) == Some(c.Sha256Hex(verdict))
    ensures var r := Bundle(c, leg, verdict, reference);
            Failing(NodeChecks(c, Expected(c, p, reference, body, recomputed), Index(r.nodes), r.nodes))
            == if FindRecomputed(recomputed, VERDICT).None? then [NotReverified(VERDICT)] else []
  {
    var r := Bundle(c, leg, verdict, reference);
    var e, g, nodes := Expected(c, p, reference, body, recomputed), Index(r.nodes), r.nodes;
    BundleGraph(c, leg, verdict, reference);
    assert nodes[..1] == [LegNode(leg)] && nodes[..1][..0] == [];
    assert NodeChecks(c, e, g, []) == [];
    var a := InputChecks(g, LEG0, []) + ProofChecks(c, e, LegNode(leg));
    var b := InputChecks(g, VERDICT, [LEG0]) + ProofChecks(c, e, VerdictNode(c, verdict));
    assert NodeChecks(c, e, g, nodes[..1]) == [] + a;
    assert NodeChecks(c, e, g, nodes) == ([] + a) + b;
    FailingAppend([] + a, b);
    assert AllPassed([] + a) by {
      assert [] + a == ProofChecks(c, e, LegNode(leg));
      ProofChecksDecide(c, e, LegNode(leg));
    }
    NoneFailing([] + a);
    FailingAppend(InputChecks(g, VERDICT, [LEG0]), ProofChecks(c, e, VerdictNode(c, verdict)));
    NoneFailing(InputChecks(g, VERDICT, [LEG0]));
  }

  lemma HeadOfBundle(c: Crypto, p: Purchase, leg: LegAttestation, verdict: bytes, reference: bytes,
                     recomputed: seq<(NodeId, bytes)>)
    requires Agrees(c, p, leg)
    ensures var r := Bundle(c, leg, verdict, reference);
            var e := Expected(c, p, reference, verdict, recomputed);
            Failing(HeadChecks(r, e, Index(r.nodes)) + RequestChecks(e, Index(r.nodes), r.outputNode)) == []
  {
    var r := Bundle(c, leg, verdict, reference);
    var e := Expected(c, p, reference, verdict, recomputed);
    BundleGraph(c, leg, verdict, reference);
    BundleAnswers(c, leg, verdict, reference, c.Sha256Hex(p.requestBody));
    NoneFailing(HeadChecks(r, e, Index(r.nodes)) + RequestChecks(e, Index(r.nodes), r.outputNode));
  }

  /** What fails when the shipped leg bytes are `legOutput` and the verdict is computed from them:
      nothing if they hash to the attested digest, and otherwise exactly the material's check and the
      verdict's "not re-verified" check. */
  lemma BundleFailures(c: Crypto, answersYes: bytes -> bool, p: Purchase, leg: LegAttestation,
                       legOutput: bytes, reference: bytes)
    requires Agrees(c, p, leg)
    ensures var verdict := StartsWithYes(answersYes, legOutput);
            Failing(AllChecks(c, answersYes, p, Bundle(c, leg, verdict, reference),
                              [Entry(LEG0, legOutput)], reference, verdict))
            == if c.Sha256Hex(legOutput) == leg.claim.responseDigest then []
               else [MaterialMatches(LEG0), NotReverified(VERDICT)]
  {
    var verdict := StartsWithYes(answersYes, legOutput);
    var r, m := Bundle(c, leg, verdict, reference), [Entry(LEG0, legOutput)];
    var recomputed := Recomputed(c, answersYes, Trusted(c, Index(r.nodes), m), r.nodes);
    var material := Check(MaterialMatches(LEG0), c.Sha256Hex(legOutput) == leg.claim.responseDigest);
    MaterialsOfBundle(c, leg, verdict, reference, legOutput);
    VerdictRecomputed(c, answersYes, leg, legOutput, reference);
    NodeChecksOfBundle(c, p, leg, verdict, reference, verdict, recomputed);
    HeadOfBundle(c, p, leg, verdict, reference, recomputed);
    FailingOfAll(c, r, Expected(c, p, reference, verdict, recomputed), material);
    FailingOne(material);
  }

  lemma VerdictRecomputed(c: Crypto, answersYes: bytes -> bool, leg: LegAttestation, legOutput: bytes, reference: bytes)
    ensures var verdict := StartsWithYes(answersYes, legOutput);
            var r := Bundle(c, leg, verdict, reference);
            var trusted := Trusted(c, Index(r.nodes), [Entry(LEG0, legOutput)]);
            FindRecomputed(Recomputed(c, answersYes, trusted, r.nodes), VERDICT)
            == if c.Sha256Hex(legOutput) == leg.claim.responseDigest then Some(c.Sha256Hex(verdict)) else None
  {
    var verdict := StartsWithYes(answersYes, legOutput);
    var r := Bundle(c, leg, verdict, reference);
    MaterialsOfBundle(c, leg, verdict, reference, legOutput);
    RecomputedOfBundle(c, answersYes, leg, verdict, reference, Trusted(c, Index(r.nodes), [Entry(LEG0, legOutput)]));
  }

  lemma FailingOne(k: Check)
    ensures Failing([k]) == if k.passed then [] else [k.name]
  {
    assert [k][1..] == [];
    assert Failing([]) == [];
  }

  lemma FailingOfAll(c: Crypto, r: HarnessReceipt, e: Expectation, material: Check)
    ensures var g := Index(r.nodes);
            Failing([material] + Checks(c, r, e)) ==
            Failing([material])
            + (Failing(HeadChecks(r, e, g) + RequestChecks(e, g, r.outputNode)) + Failing(NodeChecks(c, e, g, r.nodes)))
  {
    var g := Index(r.nodes);
    FailingAppend([material], Checks(c, r, e));
    FailingAppend(HeadChecks(r, e, g) + RequestChecks(e, g, r.outputNode), NodeChecks(c, e, g, r.nodes));
  }

  /** Substitution is pinpointed: in either mode, with any substitute, the response fails exactly the two
      checks that concern the shipped answer, or none at all when its digest is the attested one. */
  lemma SubstitutionPinpointed(c: Crypto, answersYes: bytes -> bool, substitute: bytes -> bytes, mode: Mode,
                               p: Purchase, responseBody: bytes, leg: LegAttestation, reference: bytes)
    requires Agrees(c, p, leg)
    ensures var d := Respond(c, answersYes, substitute, mode, responseBody, leg, reference);
            var shipped := if mode.Honest? then responseBody else substitute(responseBody);
            var genuine := c.Sha256Hex(shipped) == leg.claim.responseDigest;
            && Read(d).Reading?
            && Failing(AllChecks(c, answersYes, p, Read(d).receipt, Read(d).materials, Read(d).reference, d.body))
               == (if genuine then [] else [MaterialMatches(LEG0), NotReverified(VERDICT)])
            && (Accepted(c, answersYes, p, d) <==> genuine)
  {
    var d := Respond(c, answersYes, substitute, mode, responseBody, leg, reference);
    var shipped := if mode.Honest? then responseBody else substitute(responseBody);
    ResponseReads(c, answersYes, substitute, mode, responseBody, leg, reference);
    BundleFailures(c, answersYes, p, leg, shipped, reference);
    NoneFailing(AllChecks(c, answersYes, p, Read(d).receipt, Read(d).materials, Read(d).reference, d.body));
  }

  lemma AcceptedAgrees(c: Crypto, answersYes: bytes -> bool, p: Purchase, leg: LegAttestation, legOutput: bytes,
                       reference: bytes, verdict: bytes)
    requires AllPassed(AllChecks(c, answersYes, p, Bundle(c, leg, verdict, reference), [Entry(LEG0, legOutput)],
                                 reference, verdict))
    ensures Agrees(c, p, leg)
  {
    var r, m := Bundle(c, leg, verdict, reference), [Entry(LEG0, legOutput)];
    var e := Expected(c, p, reference, verdict, Recomputed(c, answersYes, Trusted(c, Index(r.nodes), m), r.nodes));
    AllPassedAppend(MaterialChecks(c, Index(r.nodes), m), Checks(c, r, e));
    ChecksDecide(c, r, e);
    assert LegNode(leg) in r.nodes && NodeAccepted(c, e, Index(r.nodes), LegNode(leg));
    BundleAnswers(c, leg, verdict, reference, c.Sha256Hex(p.requestBody));
  }

  /** For every purchase and every attestation: the response is accepted exactly if the two agree and the shipped
      answer has the attested digest. */
  lemma ResponseAcceptedIff(c: Crypto, answersYes: bytes -> bool, substitute: bytes -> bytes, mode: Mode,
                            p: Purchase, responseBody: bytes, leg: LegAttestation, reference: bytes)
    ensures var shipped := if mode.Honest? then responseBody else substitute(responseBody);
            Accepted(c, answersYes, p, Respond(c, answersYes, substitute, mode, responseBody, leg, reference)) <==>
            Agrees(c, p, leg) && c.Sha256Hex(shipped) == leg.claim.responseDigest
  {
    var shipped := if mode.Honest? then responseBody else substitute(responseBody);
    ResponseReads(c, answersYes, substitute, mode, responseBody, leg, reference);
    if Agrees(c, p, leg) {
      SubstitutionPinpointed(c, answersYes, substitute, mode, p, responseBody, leg, reference);
    } else if Accepted(c, answersYes, p, Respond(c, answersYes, substitute, mode, responseBody, leg, reference)) {
      AcceptedAgrees(c, answersYes, p, leg, shipped, reference, StartsWithYes(answersYes, shipped));
      assert false;
    }
  }
}
