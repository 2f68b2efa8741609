/** The paying agent: it checks the shipped materials, re-runs every interior node it can, and accepts
    only if every check passes. */
module Buyer {
  import opened Bytes
  import opened Core
  import opened Verifier
  import opened Materials
  import opened Harness

  /** Output bytes by node id. */
  type Outputs = map<NodeId, bytes>

  /** What the buyer brings: the exact request it sent, the host it expects, the notary key it pins. */
  datatype Purchase = Purchase(requestBody: bytes, expectedUpstream: bytes, pinnedPubkey: bytes)

  /** A seller's response: its status, the payment reference read from its payment receipt, the two sidecar
      headers, and the body.  A missing header is `None`. */
  datatype Delivery = Delivery(
    status: u16,
    paymentReference: Option<bytes>,
    receiptHeader: Option<bytes>,
    materialsHeader: Option<bytes>,
    body: bytes)

  /** A shipped material is genuine when it hashes to what its node commits to. */
  predicate MaterialOk(c: Crypto, g: Graph, m: Entry<bytes>) {
    m.key in g && g[m.key].outputDigest == c.Sha256Hex(m.value)
  }

  function MaterialChecks(c: Crypto, g: Graph, m: seq<Entry<bytes>>): seq<Check> {
    seq(|m|, i requires 0 <= i < |m| => Check(MaterialMatches(m[i].key), MaterialOk(c, g, m[i])))
  }

  function Trusted(c: Crypto, g: Graph, m: seq<Entry<bytes>>): Outputs {
    if m == [] then map[]
    else
      var t, last := Trusted(c, g, m[..|m| - 1]), m[|m| - 1];
      if MaterialOk(c, g, last) then t[last.key := last.value] else t
  }

  /** A node's inputs in order, if every one of them is trusted. */
  function InputValues(trusted: Outputs, inputs: seq<NodeId>): (r: Option<seq<bytes>>)
    ensures r.Some? <==> forall i | i in inputs :: i in trusted
    ensures r.Some? ==> r.value == seq(|inputs|, k requires 0 <= k < |inputs| => trusted[inputs[k]])
  {
    if inputs == [] then Some([])
    else
      var t := InputValues(trusted, inputs[1..]);
      if inputs[0] !in trusted || t.None? then None else Some([trusted[inputs[0]]] + t.value)
  }

  /** What re-running an interior node over trusted inputs gives. */
  function Output(answersYes: bytes -> bool, trusted: Outputs, n: Node): Option<bytes> {
    match n.proof
    case Leg(_) => None
    case Interior(Recompute(fnId)) =>
      var inputs := InputValues(trusted, n.inputs);
      if inputs.None? then None else Rerun(answersYes, fnId, inputs.value)
  }

  function Recomputed(c: Crypto, answersYes: bytes -> bool, trusted: Outputs, nodes: seq<Node>)
    : seq<(NodeId, bytes)>
  {
    if nodes == [] then []
    else
      var n := nodes[|nodes| - 1];
      var out := Output(answersYes, trusted, n);
      Recomputed(c, answersYes, trusted, nodes[..|nodes| - 1])
      + if out.None? then [] else [(n.id, c.Sha256Hex(out.value))]
  }

  function Expected(c: Crypto, p: Purchase, reference: bytes, body: bytes, recomputed: seq<(NodeId, bytes)>)
    : Expectation
  {
    Expectation(Manifest(Harness.MANIFEST_ID, [p.expectedUpstream]), Some(p.pinnedPubkey), c.Sha256Hex(body),
                reference, Some(c.Sha256Hex(p.requestBody)), recomputed)
  }

  /** Every check shown to the buyer, materials first. */
  ghost function AllChecks(c: Crypto, answersYes: bytes -> bool, p: Purchase, r: HarnessReceipt,
                           m: seq<Entry<bytes>>, reference: bytes, body: bytes): seq<Check> {
    var g := Index(r.nodes);
    var trusted := Trusted(c, g, m);
    MaterialChecks(c, g, m)
    + Checks(c, r, Expected(c, p, reference, body, Recomputed(c, answersYes, trusted, r.nodes)))
  }

  /** What is read from the two headers and the payment receipt, if the
      status is a success and all three are there and legible. */
  datatype Reading = Unreadable | Reading(receipt: HarnessReceipt, materials: seq<Entry<bytes>>, reference: bytes) {
    function MaterialsOrNone(): seq<Entry<bytes>> {
      if Reading? then materials else []
    }

    function NodesOrNone(): seq<Node> {
      if Reading? then receipt.nodes else []
    }

    function OutputOrNone(): NodeId {
      if Reading? then receipt.outputNode else []
    }
  }

  /** `StatusCode::is_success`. */
  predicate IsSuccess(status: u16) {
    200 <= status < 300
  }

  /** Only the headers of a successful response are read. */
  function Read(d: Delivery): Reading {
    if !IsSuccess(d.status) then Unreadable
    else if d.materialsHeader.None? || d.paymentReference.None? || d.receiptHeader.None? then Unreadable
    else
      var m, r := Materials.FromHeader(d.materialsHeader.value), Core.FromHeader(d.receiptHeader.value);
      if m.Err? || r.Err? then Unreadable else Reading(r.value, m.value, d.paymentReference.value)
  }

  /** The buyer's verdict on a delivery: an unreadable one is never accepted. */
  ghost predicate Accepted(c: Crypto, answersYes: bytes -> bool, p: Purchase, d: Delivery) {
    var rd := Read(d);
    rd.Reading? && AllPassed(AllChecks(c, answersYes, p, rd.receipt, rd.materials, rd.reference, d.body))
  }

  // ---------------------------------------------------------------- what acceptance means

  /** What the buyer may feed a transform for `id`: the last genuine material of that id. */
  predicate FedBy(c: Crypto, nodes: seq<Node>, m: seq<Entry<bytes>>, id: NodeId, i: nat) {
    && i < |m| && m[i].key == id && MaterialOk(c, Index(nodes), m[i])
    && forall j | i < j < |m| :: m[j].key != id || !MaterialOk(c, Index(nodes), m[j])
  }

  predicate Fed(c: Crypto, nodes: seq<Node>, m: seq<Entry<bytes>>, id: NodeId) {
    exists i | 0 <= i < |m| :: m[i].key == id && MaterialOk(c, Index(nodes), m[i])
  }

  lemma {:induction false} TrustedIs(c: Crypto, nodes: seq<Node>, m: seq<Entry<bytes>>)
    ensures forall id :: id in Trusted(c, Index(nodes), m) <==> Fed(c, nodes, m, id)
    ensures forall id, i: nat | FedBy(c, nodes, m, id, i) ::
              id in Trusted(c, Index(nodes), m) && Trusted(c, Index(nodes), m)[id] == m[i].value
  {
    var g := Index(nodes);
    if m != [] {
      var n := |m| - 1;
      var init, t := m[..n], Trusted(c, g, m[..n]);
      TrustedIs(c, nodes, init);
      forall id ensures id in Trusted(c, g, m) <==> Fed(c, nodes, m, id) {
        TrustedSnoc(c, nodes, init, m, id);
      }
      forall id, i: nat | FedBy(c, nodes, m, id, i)
        ensures id in Trusted(c, g, m) && Trusted(c, g, m)[id] == m[i].value
      {
        if i < n {
          assert m[n].key != id || !MaterialOk(c, Index(nodes), m[n]);
          assert FedBy(c, nodes, init, id, i);
        }
      }
    }
  }

  lemma TrustedSnoc(c: Crypto, nodes: seq<Node>, init: seq<Entry<bytes>>, m: seq<Entry<bytes>>, id: NodeId)
    requires m != [] && init == m[..|m| - 1]
    requires id in Trusted(c, Index(nodes), init) <==> Fed(c, nodes, init, id)
    ensures id in Trusted(c, Index(nodes), m) <==> Fed(c, nodes, m, id)
  {
    var n := |m| - 1;
    if Fed(c, nodes, init, id) {
      var i :| 0 <= i < n && init[i].key == id && MaterialOk(c, Index(nodes), init[i]);
      assert m[i].key == id && MaterialOk(c, Index(nodes), m[i]);
    }
    if Fed(c, nodes, m, id) && !(m[n].key == id && MaterialOk(c, Index(nodes), m[n])) {
      var i :| 0 <= i < |m| && m[i].key == id && MaterialOk(c, Index(nodes), m[i]);
      assert init[i] == m[i];
    }
  }

  /** Re-running a node over trusted bytes: known for the one transform, on the first input or nothing. */
  lemma OutputIs(answersYes: bytes -> bool, trusted: Outputs, n: Node)
    ensures Output(answersYes, trusted, n).Some? <==>
            && n.proof.Interior? && n.proof.proof.fnId == Ascii("starts_with_yes")
            && forall i | i in n.inputs :: i in trusted
    ensures Output(answersYes, trusted, n).Some? ==>
              Output(answersYes, trusted, n).value ==
              if answersYes(if n.inputs == [] then [] else assert n.inputs[0] in n.inputs; trusted[n.inputs[0]])
              then Ascii("1") else Ascii("0")
  {
    if n.proof.Interior? && n.inputs != [] {
      assert n.inputs[0] in n.inputs;
    }
  }

  /** Node `k` is the first of its id that can be re-run. */
  predicate FirstRerunAt(answersYes: bytes -> bool, trusted: Outputs, nodes: seq<Node>, id: NodeId, k: nat) {
    && k < |nodes| && nodes[k].id == id && Output(answersYes, trusted, nodes[k]).Some?
    && forall j | 0 <= j < k :: nodes[j].id != id || Output(answersYes, trusted, nodes[j]).None?
  }

  /** Re-running interior node `n`'s id gives the digest that `n` commits to. */
  ghost predicate Reverified(c: Crypto, answersYes: bytes -> bool, trusted: Outputs, nodes: seq<Node>, n: Node) {
    exists k: nat :: FirstRerunAt(answersYes, trusted, nodes, n.id, k)
                     && c.Sha256Hex(Output(answersYes, trusted, nodes[k]).value) == n.outputDigest
  }

  lemma {:induction false} FirstRerunFound(answersYes: bytes -> bool, trusted: Outputs, nodes: seq<Node>, id: NodeId)
    returns (k: nat)
    requires FirstRerun(answersYes, trusted, nodes, id).Some?
    ensures FirstRerunAt(answersYes, trusted, nodes, id, k)
    ensures FirstRerun(answersYes, trusted, nodes, id) == Some(nodes[k])
  {
    var n := |nodes| - 1;
    if FirstRerun(answersYes, trusted, nodes[..n], id).Some? {
      k := FirstRerunFound(answersYes, trusted, nodes[..n], id);
    } else {
      NoneBefore(answersYes, trusted, nodes[..n], id);
      k := n;
    }
  }

  lemma {:induction false} NoneBefore(answersYes: bytes -> bool, trusted: Outputs, nodes: seq<Node>, id: NodeId)
    requires FirstRerun(answersYes, trusted, nodes, id).None?
    ensures forall j | 0 <= j < |nodes| :: nodes[j].id != id || Output(answersYes, trusted, nodes[j]).None?
  {
    if nodes != [] {
      NoneBefore(answersYes, trusted, nodes[..|nodes| - 1], id);
    }
  }

  lemma FirstRerunUnique(answersYes: bytes -> bool, trusted: Outputs, nodes: seq<Node>, id: NodeId, i: nat, k: nat)
    requires FirstRerunAt(answersYes, trusted, nodes, id, i) && FirstRerunAt(answersYes, trusted, nodes, id, k)
    ensures i == k
  {
  }

  lemma ReverifiedIff(c: Crypto, answersYes: bytes -> bool, trusted: Outputs, nodes: seq<Node>, n: Node)
    ensures FindRecomputed(Recomputed(c, answersYes, trusted, nodes), n.id) == Some(n.outputDigest)
            <==> Reverified(c, answersYes, trusted, nodes, n)
  {
    RecomputedIsFirstRerun(c, answersYes, trusted, nodes, n.id);
    if FirstRerun(answersYes, trusted, nodes, n.id).Some? {
      var k := FirstRerunFound(answersYes, trusted, nodes, n.id);
      forall i: nat | FirstRerunAt(answersYes, trusted, nodes, n.id, i) ensures i == k {
        FirstRerunUnique(answersYes, trusted, nodes, n.id, i, k);
      }
    } else {
      NoneBefore(answersYes, trusted, nodes, n.id);
    }
  }

  /** A leg as the buyer accepts it: a valid proof under the pinned key, of the expected host, for the digest. */
  predicate LegPasses(c: Crypto, p: Purchase, n: Node)
    requires n.proof.Leg?
  {
    var att := n.proof.att;
    && VerifyProof(c, att) == Ok(()) && att.proof.pubkey == p.pinnedPubkey
    && att.claim.host == p.expectedUpstream && att.claim.responseDigest == n.outputDigest
  }

  ghost predicate NodePasses(c: Crypto, answersYes: bytes -> bool, p: Purchase, trusted: Outputs, nodes: seq<Node>,
                             n: Node)
  {
    && (forall i | i in n.inputs :: exists m :: m in nodes && m.id == i)
    && (n.proof.Leg? ==> LegPasses(c, p, n))
    && (n.proof.Interior? ==> Reverified(c, answersYes, trusted, nodes, n))
  }

  /** Acceptance, condition by condition, of what was read. */
  ghost predicate Passes(c: Crypto, answersYes: bytes -> bool, p: Purchase, r: HarnessReceipt, m: seq<Entry<bytes>>,
                         reference: bytes, body: bytes)
  {
    var g := Index(r.nodes);
    && (forall i | 0 <= i < |m| :: MaterialOk(c, g, m[i]))
    && r.manifestId == Ascii("starts-with-yes-v1")
    && r.outputNode in g && g[r.outputNode].outputDigest == c.Sha256Hex(body)
    && r.paymentReference == Some(reference)
    && AnswersTheRequest(g, r.outputNode, c.Sha256Hex(p.requestBody))
    && forall n | n in r.nodes :: NodePasses(c, answersYes, p, Trusted(c, g, m), r.nodes, n)
  }

  lemma NodePassesIff(c: Crypto, answersYes: bytes -> bool, p: Purchase, r: HarnessReceipt, m: seq<Entry<bytes>>,
                      reference: bytes, body: bytes, n: Node)
    ensures var trusted := Trusted(c, Index(r.nodes), m);
            NodeAccepted(c, Expected(c, p, reference, body, Recomputed(c, answersYes, trusted, r.nodes)),
                         Index(r.nodes), n)
            <==> NodePasses(c, answersYes, p, trusted, r.nodes, n)
  {
    IndexIsLast(r.nodes);
    ReverifiedIff(c, answersYes, Trusted(c, Index(r.nodes), m), r.nodes, n);
    forall i ensures i in Index(r.nodes) <==> exists x :: x in r.nodes && x.id == i {
      if i in Index(r.nodes) {
        assert Index(r.nodes)[i] in r.nodes;
      }
    }
    assert [p.expectedUpstream][0] == p.expectedUpstream;
  }

  lemma MaterialsPassIff(c: Crypto, nodes: seq<Node>, m: seq<Entry<bytes>>)
    ensures AllPassed(MaterialChecks(c, Index(nodes), m)) <==>
            forall i | 0 <= i < |m| :: MaterialOk(c, Index(nodes), m[i])
  {
    var k := MaterialChecks(c, Index(nodes), m);
    if AllPassed(k) {
      forall i | 0 <= i < |m| ensures MaterialOk(c, Index(nodes), m[i]) {
        assert k[i] in k;
      }
    }
  }

  /** All checks pass exactly if every material is genuine and the receipt is acceptable, condition by condition. */
  lemma PassesIff(c: Crypto, answersYes: bytes -> bool, p: Purchase, r: HarnessReceipt, m: seq<Entry<bytes>>,
                  reference: bytes, body: bytes)
    ensures AllPassed(AllChecks(c, answersYes, p, r, m, reference, body))
            <==> Passes(c, answersYes, p, r, m, reference, body)
  {
    var g := Index(r.nodes);
    var e := Expected(c, p, reference, body, Recomputed(c, answersYes, Trusted(c, g, m), r.nodes));
    AllPassedAppend(MaterialChecks(c, g, m), Checks(c, r, e));
    MaterialsPassIff(c, r.nodes, m);
    ChecksDecide(c, r, e);
    forall n | n in r.nodes
      ensures NodeAccepted(c, e, g, n) <==> NodePasses(c, answersYes, p, Trusted(c, g, m), r.nodes, n)
    {
      NodePassesIff(c, answersYes, p, r, m, reference, body, n);
    }
  }

  /** What the buyer reads: the three headers of a successful response, each legible. */
  lemma ReadIff(d: Delivery, r: HarnessReceipt, m: seq<Entry<bytes>>, reference: bytes)
    ensures Read(d) == Reading(r, m, reference) <==>
            && 200 <= d.status <= 299 && d.paymentReference == Some(reference)
            && d.receiptHeader.Some? && Core.FromHeader(d.receiptHeader.value) == Ok(r)
            && d.materialsHeader.Some? && Materials.FromHeader(d.materialsHeader.value) == Ok(m)
  {
  }

  /** The verification half of the buyer's `main`. */
  method Decide(c: Crypto, answersYes: bytes -> bool, p: Purchase, d: Delivery)
    returns (accepted: bool, all: seq<Check>)
    ensures accepted <==> Accepted(c, answersYes, p, d)
    ensures var rd := Read(d);
            accepted <==>
            rd.Reading? && Passes(c, answersYes, p, rd.receipt, rd.materials, rd.reference, d.body)
    ensures var rd, m := Read(d), Read(d).MaterialsOrNone();
            rd.Reading? ==>
              && |m| <= |all|
              && (forall i | 0 <= i < |m| ::
                    all[i] == Check(MaterialMatches(m[i].key), MaterialOk(c, Index(rd.receipt.nodes), m[i])))
              && Reports(c, rd.receipt,
                         Expected(c, p, rd.reference, d.body,
                                  Recomputed(c, answersYes, Trusted(c, Index(rd.receipt.nodes), m), rd.receipt.nodes)),
                         all[|m|..])
    ensures var rd := Read(d);
            rd.Reading? ==> all == AllChecks(c, answersYes, p, rd.receipt, rd.materials, rd.reference, d.body)
  {
    var rd := Read(d);
    if rd.Unreadable? {
      return false, [];
    }
    var r := rd.receipt;
    var materialChecks, trusted := CheckMaterials(c, Index(r.nodes), rd.materials);
    var recomputed := RerunAll(c, answersYes, trusted, r.nodes);
    var checks := Verify(c, r, Expected(c, p, rd.reference, d.body, recomputed));
    all := materialChecks + checks;
    accepted := forall k | k in all :: k.passed;
    PassesIff(c, answersYes, p, r, rd.materials, rd.reference, d.body);
  }

  /** The buyer's first loop: check each shipped material, and trust those that pass. */
  method CheckMaterials(c: Crypto, committed: Graph, m: seq<Entry<bytes>>)
    returns (checks: seq<Check>, trusted: Outputs)
    ensures checks == MaterialChecks(c, committed, m)
    ensures trusted == Trusted(c, committed, m)
    ensures |checks| == |m|
    ensures forall i | 0 <= i < |m| ::
              checks[i] == Check(MaterialMatches(m[i].key),
                                 m[i].key in committed && committed[m[i].key].outputDigest == c.Sha256Hex(m[i].value))
    ensures forall id | id in trusted :: exists i | 0 <= i < |m| :: m[i] == Entry(id, trusted[id]) && checks[i].passed
    ensures forall i | 0 <= i < |m| && checks[i].passed :: m[i].key in trusted
  {
    checks, trusted := [], map[];
    var i := 0;
    while i < |m|
      invariant 0 <= i <= |m|
      invariant checks == MaterialChecks(c, committed, m[..i])
      invariant trusted == Trusted(c, committed, m[..i])
      invariant forall id | id in trusted :: exists j | 0 <= j < i :: m[j] == Entry(id, trusted[id]) && checks[j].passed
      invariant forall j | 0 <= j < i && checks[j].passed :: m[j].key in trusted
    {
      var ok := m[i].key in committed && committed[m[i].key].outputDigest == c.Sha256Hex(m[i].value);
      checks := checks + [Check(MaterialMatches(m[i].key), ok)];
      if ok {
        trusted := trusted[m[i].key := m[i].value];
      }
      assert m[..i + 1][..i] == m[..i];
      i := i + 1;
    }
    assert m[..i] == m;
  }

  /** `recomputed` is, in order, an entry for each of the nodes `ks` and for no other: those that can be re-run. */
  ghost predicate RecordsAll(c: Crypto, answersYes: bytes -> bool, trusted: Outputs, nodes: seq<Node>,
                             recomputed: seq<(NodeId, bytes)>, ks: seq<nat>)
  {
    && |ks| == |recomputed| && (forall i, j | 0 <= i < j < |ks| :: ks[i] < ks[j])
    && (forall k | 0 <= k < |nodes| :: k in ks <==> Output(answersYes, trusted, nodes[k]).Some?)
    && forall i | 0 <= i < |ks| ::
         && ks[i] < |nodes| && Output(answersYes, trusted, nodes[ks[i]]).Some?
         && recomputed[i] == (nodes[ks[i]].id, c.Sha256Hex(Output(answersYes, trusted, nodes[ks[i]]).value))
  }

  lemma RecordsSkipped(c: Crypto, answersYes: bytes -> bool, trusted: Outputs, nodes: seq<Node>, n: Node,
                       recomputed: seq<(NodeId, bytes)>, ks: seq<nat>)
    requires RecordsAll(c, answersYes, trusted, nodes, recomputed, ks) && Output(answersYes, trusted, n).None?
    ensures RecordsAll(c, answersYes, trusted, nodes + [n], recomputed, ks)
  {
    assert forall i | 0 <= i < |ks| :: ks[i] in ks;
  }

  lemma RecordsMore(c: Crypto, answersYes: bytes -> bool, trusted: Outputs, nodes: seq<Node>, n: Node,
                    recomputed: seq<(NodeId, bytes)>, ks: seq<nat>)
    requires RecordsAll(c, answersYes, trusted, nodes, recomputed, ks) && Output(answersYes, trusted, n).Some?
    ensures RecordsAll(c, answersYes, trusted, nodes + [n],
                       recomputed + [(n.id, c.Sha256Hex(Output(answersYes, trusted, n).value))], ks + [|nodes|])
  {
    var more := ks + [|nodes|];
    assert forall k :: k in more <==> k in ks || k == |nodes|;
  }

  lemma {:induction false} RecomputedRecords(c: Crypto, answersYes: bytes -> bool, trusted: Outputs, nodes: seq<Node>)
    returns (ks: seq<nat>)
    ensures RecordsAll(c, answersYes, trusted, nodes, Recomputed(c, answersYes, trusted, nodes), ks)
  {
    ks := [];
    if nodes != [] {
      var n := |nodes| - 1;
      var init, last := nodes[..n], nodes[n];
      assert nodes == init + [last];
      ks := RecomputedRecords(c, answersYes, trusted, init);
      var before := Recomputed(c, answersYes, trusted, init);
      if Output(answersYes, trusted, last).Some? {
        RecordsMore(c, answersYes, trusted, init, last, before, ks);
        ks := ks + [n];
      } else {
        RecordsSkipped(c, answersYes, trusted, init, last, before, ks);
      }
    }
  }

  /** The buyer's second loop: re-run each interior node whose inputs are all trusted. */
  method RerunAll(c: Crypto, answersYes: bytes -> bool, trusted: Outputs, nodes: seq<Node>)
    returns (recomputed: seq<(NodeId, bytes)>)
    ensures recomputed == Recomputed(c, answersYes, trusted, nodes)
    ensures exists ks :: RecordsAll(c, answersYes, trusted, nodes, recomputed, ks)
  {
    recomputed := [];
    var i := 0;
    while i < |nodes|
      invariant 0 <= i <= |nodes|
      invariant recomputed == Recomputed(c, answersYes, trusted, nodes[..i])
    {
      var node := nodes[i];
      if node.proof.Interior? {
        var inputs := InputValues(trusted, node.inputs);
        if inputs.Some? {
          var out := Rerun(answersYes, node.proof.proof.fnId, inputs.value);
          if out.Some? {
            recomputed := recomputed + [(node.id, c.Sha256Hex(out.value))];
          }
        }
      }
      assert nodes[..i + 1][..i] == nodes[..i];
      i := i + 1;
    }
    assert nodes[..i] == nodes;
    ghost var ks := RecomputedRecords(c, answersYes, trusted, nodes);
  }

  // ---------------------------------------------------------------- what passing the checks gives

  lemma {:induction false} TrustedIsGenuine(c: Crypto, g: Graph, m: seq<Entry<bytes>>)
    ensures forall id | id in Trusted(c, g, m) ::
              id in g && c.Sha256Hex(Trusted(c, g, m)[id]) == g[id].outputDigest
    ensures forall id | id in Trusted(c, g, m) :: exists i | 0 <= i < |m| :: m[i] == Entry(id, Trusted(c, g, m)[id])
  {
    if m != [] {
      var n := |m| - 1;
      TrustedIsGenuine(c, g, m[..n]);
      var t, init := Trusted(c, g, m), Trusted(c, g, m[..n]);
      forall id | id in t ensures exists i | 0 <= i < |m| :: m[i] == Entry(id, t[id]) {
        if MaterialOk(c, g, m[n]) && id == m[n].key {
          assert m[n] == Entry(id, t[id]);
        } else {
          var i :| 0 <= i < n && m[..n][i] == Entry(id, init[id]);
          assert m[i] == Entry(id, t[id]);
        }
      }
    }
  }

  lemma {:induction false} FindAppended(a: seq<(NodeId, bytes)>, b: seq<(NodeId, bytes)>, id: NodeId)
    ensures FindRecomputed(a + b, id) ==
            if FindRecomputed(a, id).Some? then FindRecomputed(a, id) else FindRecomputed(b, id)
  {
    if a == [] {
      assert a + b == b;
    } else {
      assert (a + b)[1..] == a[1..] + b;
      FindAppended(a[1..], b, id);
    }
  }

  /** Of the nodes with this id, the first that the buyer can re-run. */
  function FirstRerun(answersYes: bytes -> bool, trusted: Outputs, nodes: seq<Node>, id: NodeId): Option<Node> {
    if nodes == [] then None
    else
      var k := |nodes| - 1;
      var first := FirstRerun(answersYes, trusted, nodes[..k], id);
      if first.Some? then first
      else if nodes[k].id == id && Output(answersYes, trusted, nodes[k]).Some? then Some(nodes[k])
      else None
  }

  lemma {:induction false} FirstRerunIs(answersYes: bytes -> bool, trusted: Outputs, nodes: seq<Node>, id: NodeId)
    requires FirstRerun(answersYes, trusted, nodes, id).Some?
    ensures var n := FirstRerun(answersYes, trusted, nodes, id).value;
            n in nodes && n.id == id && n.proof.Interior? && Output(answersYes, trusted, n).Some?
  {
    var k := |nodes| - 1;
    if FirstRerun(answersYes, trusted, nodes[..k], id).Some? {
      FirstRerunIs(answersYes, trusted, nodes[..k], id);
    }
  }

  /** The digest the verifier finds for an id is that of the first node of that id that was re-run. */
  lemma {:induction false} RecomputedIsFirstRerun(c: Crypto, answersYes: bytes -> bool, trusted: Outputs,
                                                  nodes: seq<Node>, id: NodeId)
    ensures var n := FirstRerun(answersYes, trusted, nodes, id);
            FindRecomputed(Recomputed(c, answersYes, trusted, nodes), id) ==
            if n.None? then None else Some(c.Sha256Hex(Output(answersYes, trusted, n.value).GetOr([])))
  {
    if nodes != [] {
      var k := |nodes| - 1;
      var last, init := nodes[k], nodes[..k];
      var out := Output(answersYes, trusted, last);
      RecomputedIsFirstRerun(c, answersYes, trusted, init, id);
      FindAppended(Recomputed(c, answersYes, trusted, init),
                   if out.None? then [] else [(last.id, c.Sha256Hex(out.value))], id);
      if FirstRerun(answersYes, trusted, init, id).Some? {
        FirstRerunIs(answersYes, trusted, init, id);
      }
    }
  }
}
