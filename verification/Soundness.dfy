/** What acceptance proves about the delivered bytes.  The checks compare digests node by node; the
    theorems here join them into a statement about the whole declared graph. */
module Soundness {
  import opened Bytes
  import opened Core
  import opened Verifier
  import opened Materials
  import opened Harness
  import opened Buyer

  /** Bytes for every leg, hashing to the response digest the leg's claim attests. */
  ghost predicate BehindLegs(c: Crypto, g: Graph, origin: Outputs) {
    forall id | id in g && g[id].proof.Leg? ::
      id in origin && c.Sha256Hex(origin[id]) == g[id].proof.att.claim.responseDigest
  }

  // ---------------------------------------------------------------- the graph as equations

  /** `value` solves the graph: a leg has the bytes behind it, and an interior node has what its
      transform gives on the values of its inputs, in order. */
  ghost predicate Solves(answersYes: bytes -> bool, g: Graph, origin: Outputs, value: Outputs) {
    && value.Keys == g.Keys
    && forall id | id in g :: SolvedAt(answersYes, g, origin, value, id)
  }

  ghost predicate SolvedAt(answersYes: bytes -> bool, g: Graph, origin: Outputs, value: Outputs, id: NodeId)
    requires id in g && id in value
  {
    match g[id].proof
    case Leg(_) => id in origin && value[id] == origin[id]
    case Interior(_) => Output(answersYes, value, g[id]) == Some(value[id])
  }

  // ---------------------------------------------------------------- the graph as a program

  /** Edges between resolved nodes go down in rank: the graph has no cycle. */
  ghost predicate Acyclic(g: Graph, rank: map<NodeId, nat>) {
    forall a, b | Edge(g, a, b) && b in g :: a in rank && b in rank && rank[b] < rank[a]
  }

  function Height(rank: map<NodeId, nat>, id: NodeId): nat {
    if id in rank then rank[id] else 0
  }

  /** Running the declared graph from its legs up to node `id`. */
  ghost function Evaluate(answersYes: bytes -> bool, g: Graph, origin: Outputs, rank: map<NodeId, nat>, id: NodeId)
    : Option<bytes>
    requires Acyclic(g, rank)
    decreases Height(rank, id), 1, 0
  {
    if id !in g then None
    else
      match g[id].proof
      case Leg(_) => if id in origin then Some(origin[id]) else None
      case Interior(Recompute(fnId)) =>
        var inputs := EvaluateAll(answersYes, g, origin, rank, id, g[id].inputs);
        if inputs.None? then None else Rerun(answersYes, fnId, inputs.value)
  }

  ghost function EvaluateAll(answersYes: bytes -> bool, g: Graph, origin: Outputs, rank: map<NodeId, nat>,
                             id: NodeId, inputs: seq<NodeId>): Option<seq<bytes>>
    requires Acyclic(g, rank) && forall i | i in inputs :: Edge(g, id, i)
    decreases Height(rank, id), 0, |inputs|
  {
    if inputs == [] then Some([])
    else if inputs[0] !in g then None
    else
      assert Edge(g, id, inputs[0]);
      var first, rest := Evaluate(answersYes, g, origin, rank, inputs[0]),
                         EvaluateAll(answersYes, g, origin, rank, id, inputs[1..]);
      if first.None? || rest.None? then None else Some([first.value] + rest.value)
  }

  /** In a graph without cycles, running the graph gives the value of any solution. */
  lemma {:induction false} SolutionIsEvaluation(answersYes: bytes -> bool, g: Graph, origin: Outputs,
                                                rank: map<NodeId, nat>, value: Outputs, id: NodeId)
    requires Acyclic(g, rank) && Solves(answersYes, g, origin, value) && id in g
    ensures Evaluate(answersYes, g, origin, rank, id) == Some(value[id])
    decreases Height(rank, id), 1, 0
  {
    assert SolvedAt(answersYes, g, origin, value, id);
    if g[id].proof.Interior? {
      var inputs := g[id].inputs;
      assert InputValues(value, inputs).Some?;
      SolutionsAreEvaluations(answersYes, g, origin, rank, value, id, inputs);
    }
  }

  lemma {:induction false} SolutionsAreEvaluations(answersYes: bytes -> bool, g: Graph, origin: Outputs,
                                                   rank: map<NodeId, nat>, value: Outputs,
                                                   id: NodeId, inputs: seq<NodeId>)
    requires Acyclic(g, rank) && Solves(answersYes, g, origin, value)
    requires forall i | i in inputs :: Edge(g, id, i) && i in g
    ensures EvaluateAll(answersYes, g, origin, rank, id, inputs) == InputValues(value, inputs)
    decreases Height(rank, id), 0, |inputs|
  {
    if inputs != [] {
      assert inputs[0] in inputs;
      assert Edge(g, id, inputs[0]);
      SolutionIsEvaluation(answersYes, g, origin, rank, value, inputs[0]);
      SolutionsAreEvaluations(answersYes, g, origin, rank, value, id, inputs[1..]);
    }
  }

  // ---------------------------------------------------------------- parts of a graph

  /** A part of the graph that holds the output and all its own inputs that the graph has. */
  predicate PartOf(k: Graph, g: Graph, output: NodeId) {
    && output in k && (forall id | id in k :: id in g && k[id] == g[id])
    && forall id | id in k && k[id].proof.Interior? :: forall i | i in k[id].inputs && i in g :: i in k
  }

  /** The least such part: what the output depends on. */
  ghost function Cone(g: Graph, output: NodeId): Graph {
    map id | id in g && Reaches(g, output, id) :: g[id]
  }

  lemma ConeIsPart(g: Graph, output: NodeId)
    requires output in g
    ensures PartOf(Cone(g, output), g, output)
  {
    var k := Cone(g, output);
    ReachesSelf(g, output);
    forall id, i | id in k && k[id].proof.Interior? && i in k[id].inputs && i in g ensures i in k {
      assert Edge(g, id, i);
      ReachesStep(g, output, id, i);
    }
  }

  /** Without cycles elsewhere either, a part evaluates as the whole does. */
  lemma {:induction false} PartEvaluation(answersYes: bytes -> bool, k: Graph, g: Graph, output: NodeId,
                                          origin: Outputs, rank: map<NodeId, nat>, id: NodeId)
    requires PartOf(k, g, output) && Acyclic(g, rank) && id in k
    ensures Acyclic(k, rank)
    ensures Evaluate(answersYes, k, origin, rank, id) == Evaluate(answersYes, g, origin, rank, id)
    decreases Height(rank, id), 1, 0
  {
    PartAcyclic(k, g, output, rank);
    if k[id].proof.Interior? {
      PartEvaluations(answersYes, k, g, output, origin, rank, id, k[id].inputs);
    }
  }

  lemma PartAcyclic(k: Graph, g: Graph, output: NodeId, rank: map<NodeId, nat>)
    requires PartOf(k, g, output) && Acyclic(g, rank)
    ensures Acyclic(k, rank)
  {
    forall a, b | Edge(k, a, b) && b in k ensures a in rank && b in rank && rank[b] < rank[a] {
      assert Edge(g, a, b);
    }
  }

  lemma ConeAcyclic(g: Graph, output: NodeId, rank: map<NodeId, nat>)
    requires Acyclic(g, rank)
    ensures Acyclic(Cone(g, output), rank)
  {
    forall a, b | Edge(Cone(g, output), a, b) && b in Cone(g, output)
      ensures a in rank && b in rank && rank[b] < rank[a]
    {
      assert Edge(g, a, b);
    }
  }

  lemma {:induction false} PartEvaluations(answersYes: bytes -> bool, k: Graph, g: Graph, output: NodeId,
                                           origin: Outputs, rank: map<NodeId, nat>, id: NodeId, inputs: seq<NodeId>)
    requires PartOf(k, g, output) && Acyclic(g, rank) && Acyclic(k, rank)
    requires forall i | i in inputs :: Edge(k, id, i) && Edge(g, id, i)
    ensures EvaluateAll(answersYes, k, origin, rank, id, inputs) == EvaluateAll(answersYes, g, origin, rank, id, inputs)
    decreases Height(rank, id), 0, |inputs|
  {
    if inputs != [] {
      var i := inputs[0];
      assert i in inputs;
      assert Edge(k, id, i) && Edge(g, id, i) && (i in g <==> i in k);
      if i in k {
        PartEvaluation(answersYes, k, g, output, origin, rank, i);
      }
      PartEvaluations(answersYes, k, g, output, origin, rank, id, inputs[1..]);
    }
  }

  // ---------------------------------------------------------------- the graph the buyer ran

  /** The graph whose nodes the buyer's answer rests on.  Legs are those of the id index.  For an interior id it is
      the first node of that id that could be re-run, which is the indexed one only if ids are not repeated. */
  function RerunGraph(answersYes: bytes -> bool, trusted: Outputs, nodes: seq<Node>): Graph {
    var g := Index(nodes);
    map id | id in g ::
      if g[id].proof.Leg? then g[id] else FirstRerun(answersYes, trusted, nodes, id).GetOr(g[id])
  }

  /** With unique ids it is the id index. */
  lemma RerunGraphUnique(answersYes: bytes -> bool, trusted: Outputs, nodes: seq<Node>)
    requires UniqueIds(nodes)
    ensures RerunGraph(answersYes, trusted, nodes) == Index(nodes)
  {
    var g := Index(nodes);
    IndexUnique(nodes);
    forall id | id in g && g[id].proof.Interior? && FirstRerun(answersYes, trusted, nodes, id).Some?
      ensures FirstRerun(answersYes, trusted, nodes, id).value == g[id]
    {
      FirstRerunIs(answersYes, trusted, nodes, id);
    }
  }

  lemma RerunGraphLegs(answersYes: bytes -> bool, trusted: Outputs, nodes: seq<Node>)
    ensures var h := RerunGraph(answersYes, trusted, nodes);
            forall id | id in h && h[id].proof.Leg? :: h[id] == Index(nodes)[id]
  {
    forall id | FirstRerun(answersYes, trusted, nodes, id).Some?
      ensures FirstRerun(answersYes, trusted, nodes, id).value.proof.Interior?
    {
      FirstRerunIs(answersYes, trusted, nodes, id);
    }
  }

  /** `h` has the ids of the index; each of its nodes is a node of the receipt, with that id and the digest of the
      indexed node; legs are the indexed ones, and interior nodes stand where interior nodes are indexed. */
  ghost predicate Represents(h: Graph, nodes: seq<Node>) {
    var g := Index(nodes);
    && h.Keys == g.Keys
    && forall id | id in h ::
         && h[id] in nodes && h[id].id == id && h[id].outputDigest == g[id].outputDigest
         && (g[id].proof.Leg? ==> h[id] == g[id])
         && (g[id].proof.Interior? ==> h[id].proof.Interior?)
  }

  /** Every edge that any node of the receipt declares goes down in rank. */
  ghost predicate NodesAcyclic(nodes: seq<Node>, rank: map<NodeId, nat>) {
    forall n, i | n in nodes && n.proof.Interior? && i in n.inputs ::
      n.id in rank && i in rank && rank[i] < rank[n.id]
  }

  /** A receipt without cycles has none in any graph made of its nodes. */
  lemma NodesAcyclicGraph(h: Graph, nodes: seq<Node>, rank: map<NodeId, nat>)
    requires NodesAcyclic(nodes, rank) && forall id | id in h :: h[id] in nodes && h[id].id == id
    ensures Acyclic(h, rank)
  {
    forall a, b | Edge(h, a, b) && b in h ensures a in rank && b in rank && rank[b] < rank[a] {
      assert h[a] in nodes;
    }
  }

  /** So there is none in the index, nor in the graph the buyer ran, whatever it trusts. */
  lemma NoCycles(answersYes: bytes -> bool, trusted: Outputs, nodes: seq<Node>, rank: map<NodeId, nat>)
    requires NodesAcyclic(nodes, rank)
    ensures Acyclic(Index(nodes), rank) && Acyclic(RerunGraph(answersYes, trusted, nodes), rank)
  {
    var h := RerunGraph(answersYes, trusted, nodes);
    IndexIsLast(nodes);
    NodesAcyclicGraph(Index(nodes), nodes, rank);
    forall id | id in h ensures h[id] in nodes && h[id].id == id {
      if FirstRerun(answersYes, trusted, nodes, id).Some? {
        FirstRerunIs(answersYes, trusted, nodes, id);
      }
    }
    NodesAcyclicGraph(h, nodes, rank);
  }

  // ---------------------------------------------------------------- from checks to equations

  /** The facts about every node of a graph that join into a solution of it. */
  ghost predicate Consistent(c: Crypto, answersYes: bytes -> bool, g: Graph, output: NodeId, trusted: Outputs,
                             body: bytes) {
    && (forall id | id in trusted && id in g :: c.Sha256Hex(trusted[id]) == g[id].outputDigest)
    && (forall id | id in g && g[id].proof.Interior? :: forall i | i in g[id].inputs && i in trusted :: i in g)
    && output in g && c.Sha256Hex(body) == g[output].outputDigest
    && (forall id | id in g :: g[id].id == id)
    && (forall id | id in g && g[id].proof.Leg? :: g[id].outputDigest == g[id].proof.att.claim.responseDigest)
    && Reruns(c, answersYes, g, trusted)
  }

  /** Re-running each interior node of the graph over trusted inputs gives its committed digest. */
  predicate Reruns(c: Crypto, answersYes: bytes -> bool, g: Graph, trusted: Outputs) {
    forall id | id in g && g[id].proof.Interior? :: RerunsAt(c, answersYes, trusted, g[id])
  }

  predicate RerunsAt(c: Crypto, answersYes: bytes -> bool, trusted: Outputs, n: Node) {
    var out := Output(answersYes, trusted, n);
    out.Some? && c.Sha256Hex(out.value) == n.outputDigest
  }

  lemma AcceptedNodes(c: Crypto, answersYes: bytes -> bool, p: Purchase, r: HarnessReceipt,
                      m: seq<Entry<bytes>>, reference: bytes, body: bytes)
    requires AllPassed(AllChecks(c, answersYes, p, r, m, reference, body))
    ensures var g := Index(r.nodes);
            var trusted := Trusted(c, g, m);
            && r.outputNode in g && c.Sha256Hex(body) == g[r.outputNode].outputDigest
            && forall n | n in r.nodes ::
                 match n.proof
                 case Leg(att) => n.outputDigest == att.claim.responseDigest
                 case Interior(_) =>
                   FindRecomputed(Recomputed(c, answersYes, trusted, r.nodes), n.id) == Some(n.outputDigest)
  {
    var g := Index(r.nodes);
    var e := Expected(c, p, reference, body, Recomputed(c, answersYes, Trusted(c, g, m), r.nodes));
    AllPassedAppend(MaterialChecks(c, g, m), Checks(c, r, e));
    ChecksDecide(c, r, e);
    forall n | n in r.nodes ensures NodeAccepted(c, e, g, n) {
    }
  }

  /** The buyer's graph represents the receipt, and the buyer did re-run all of it. */
  lemma AcceptedRerunGraph(c: Crypto, answersYes: bytes -> bool, p: Purchase, r: HarnessReceipt,
                           m: seq<Entry<bytes>>, reference: bytes, body: bytes)
    requires AllPassed(AllChecks(c, answersYes, p, r, m, reference, body))
    ensures var trusted := Trusted(c, Index(r.nodes), m);
            var h := RerunGraph(answersYes, trusted, r.nodes);
            Represents(h, r.nodes) && Reruns(c, answersYes, h, trusted)
  {
    var g := Index(r.nodes);
    var trusted := Trusted(c, g, m);
    var h := RerunGraph(answersYes, trusted, r.nodes);
    AcceptedNodes(c, answersYes, p, r, m, reference, body);
    IndexIsLast(r.nodes);
    forall id | id in g && g[id].proof.Interior?
      ensures h[id] in r.nodes && h[id].id == id && h[id].outputDigest == g[id].outputDigest
      ensures h[id].proof.Interior? && RerunsAt(c, answersYes, trusted, h[id])
    {
      RecomputedIsFirstRerun(c, answersYes, trusted, r.nodes, id);
      FirstRerunIs(answersYes, trusted, r.nodes, id);
    }
  }

  lemma RepresentedIsConsistent(c: Crypto, answersYes: bytes -> bool, p: Purchase, r: HarnessReceipt,
                                m: seq<Entry<bytes>>, reference: bytes, body: bytes, h: Graph, k: Graph)
    requires AllPassed(AllChecks(c, answersYes, p, r, m, reference, body))
    requires Represents(h, r.nodes) && PartOf(k, h, r.outputNode)
    requires Reruns(c, answersYes, k, Trusted(c, Index(r.nodes), m))
    ensures Consistent(c, answersYes, k, r.outputNode, Trusted(c, Index(r.nodes), m), body)
  {
    AcceptedNodes(c, answersYes, p, r, m, reference, body);
    TrustedIsGenuine(c, Index(r.nodes), m);
  }

  /** The values that hashing must tell apart: the body, the trusted materials, the bytes behind the
      legs, and the two possible verdicts. */
  ghost predicate Covers(values: set<bytes>, trusted: Outputs, origin: Outputs, body: bytes) {
    && body in values && YES in values && NO in values
    && (forall id | id in trusted :: trusted[id] in values)
    && (forall id | id in origin :: origin[id] in values)
  }

  /** The bytes behind a leg, and what an interior node gave when it was re-run. */
  ghost function Known(answersYes: bytes -> bool, trusted: Outputs, origin: Outputs, n: Node): bytes {
    match n.proof
    case Leg(_) => if n.id in origin then origin[n.id] else []
    case Interior(_) => Output(answersYes, trusted, n).GetOr([])
  }

  lemma KnownDigest(c: Crypto, answersYes: bytes -> bool, trusted: Outputs, origin: Outputs, values: set<bytes>,
                    n: Node)
    requires YES in values && NO in values
    requires n.proof.Interior? ==> RerunsAt(c, answersYes, trusted, n)
    requires n.proof.Leg? ==>
               n.id in origin && origin[n.id] in values && c.Sha256Hex(origin[n.id]) == n.outputDigest
    ensures var k := Known(answersYes, trusted, origin, n);
            k in values && c.Sha256Hex(k) == n.outputDigest
  {
  }

  lemma SameAsTrusted(c: Crypto, g: Graph, trusted: Outputs, value: Outputs, values: set<bytes>)
    requires CollisionFree(c, values)
    requires forall id | id in g :: id in value && value[id] in values && c.Sha256Hex(value[id]) == g[id].outputDigest
    requires forall id | id in trusted && id in g :: c.Sha256Hex(trusted[id]) == g[id].outputDigest
    requires forall id | id in trusted :: trusted[id] in values
    ensures forall id | id in trusted && id in g :: value[id] == trusted[id]
  {
    forall id | id in trusted && id in g ensures value[id] == trusted[id] {
      SameDigestSameBytes(c, values, value[id], trusted[id]);
    }
  }

  lemma SameInputs(answersYes: bytes -> bool, trusted: Outputs, value: Outputs, n: Node)
    requires n.proof.Interior? && forall i | i in n.inputs && i in trusted :: i in value && value[i] == trusted[i]
    requires Output(answersYes, trusted, n).Some?
    ensures Output(answersYes, value, n) == Output(answersYes, trusted, n)
  {
    assert InputValues(trusted, n.inputs).Some?;
    assert InputValues(value, n.inputs).value == InputValues(trusted, n.inputs).value;
  }

  lemma KnownSolves(answersYes: bytes -> bool, g: Graph, trusted: Outputs, origin: Outputs, value: Outputs)
    requires value.Keys == g.Keys
    requires forall id | id in g :: g[id].id == id && value[id] == Known(answersYes, trusted, origin, g[id])
    requires forall id | id in g && g[id].proof.Leg? :: id in origin
    requires forall id | id in g && g[id].proof.Interior? :: Output(answersYes, trusted, g[id]).Some?
    requires forall id | id in g && g[id].proof.Interior? :: forall i | i in g[id].inputs && i in trusted :: i in g
    requires forall id | id in trusted && id in g :: value[id] == trusted[id]
    ensures Solves(answersYes, g, origin, value)
  {
    forall id | id in g ensures SolvedAt(answersYes, g, origin, value, id) {
      if g[id].proof.Interior? {
        SameInputs(answersYes, trusted, value, g[id]);
      }
    }
  }

  /** On any graph, cyclic ones included, node-by-node digest equalities mean that the graph's equations have a
      solution whose value at the output node is the delivered body. */
  lemma ConsistentIsSolved(c: Crypto, answersYes: bytes -> bool, g: Graph, output: NodeId, trusted: Outputs,
                           body: bytes, origin: Outputs, values: set<bytes>)
    returns (value: Outputs)
    requires Consistent(c, answersYes, g, output, trusted, body) && BehindLegs(c, g, origin)
    requires Covers(values, trusted, origin, body) && CollisionFree(c, values)
    ensures Solves(answersYes, g, origin, value)
    ensures forall id | id in g :: c.Sha256Hex(value[id]) == g[id].outputDigest
    ensures value[output] == body
  {
    value := map id | id in g :: Known(answersYes, trusted, origin, g[id]);
    assert value.Keys == g.Keys;
    forall id | id in g ensures value[id] in values && c.Sha256Hex(value[id]) == g[id].outputDigest {
      assert g[id].proof.Interior? ==> RerunsAt(c, answersYes, trusted, g[id]);
      KnownDigest(c, answersYes, trusted, origin, values, g[id]);
    }
    SameAsTrusted(c, g, trusted, value, values);
    forall id | id in g && g[id].proof.Interior? ensures Output(answersYes, trusted, g[id]).Some? {
      assert RerunsAt(c, answersYes, trusted, g[id]);
    }
    KnownSolves(answersYes, g, trusted, origin, value);
    SameDigestSameBytes(c, values, value[output], body);
  }

  // ---------------------------------------------------------------- soundness, whatever the seller sends

  /** Acceptance of any receipt, with cycles or repeated ids or neither: the delivered body is the output's value in
      a solution of the equations of the graph the buyer ran, over the bytes behind the legs' attested digests.  It
      is so of the whole graph, and of any part of it that holds the output and its own inputs. */
  lemma AcceptedBodySolvesGraph(c: Crypto, answersYes: bytes -> bool, p: Purchase, r: HarnessReceipt,
                                m: seq<Entry<bytes>>, reference: bytes, body: bytes,
                                k: Graph, origin: Outputs, values: set<bytes>)
    returns (value: Outputs)
    requires AllPassed(AllChecks(c, answersYes, p, r, m, reference, body))
    requires PartOf(k, RerunGraph(answersYes, Trusted(c, Index(r.nodes), m), r.nodes), r.outputNode)
    requires BehindLegs(c, k, origin)
    requires Covers(values, Trusted(c, Index(r.nodes), m), origin, body) && CollisionFree(c, values)
    ensures Represents(RerunGraph(answersYes, Trusted(c, Index(r.nodes), m), r.nodes), r.nodes)
    ensures Solves(answersYes, k, origin, value) && r.outputNode in value && value[r.outputNode] == body
  {
    var trusted := Trusted(c, Index(r.nodes), m);
    var h := RerunGraph(answersYes, trusted, r.nodes);
    AcceptedRerunGraph(c, answersYes, p, r, m, reference, body);
    RepresentedIsConsistent(c, answersYes, p, r, m, reference, body, h, k);
    value := ConsistentIsSolved(c, answersYes, k, r.outputNode, trusted, body, origin, values);
  }

  /** The graph the buyer ran is such a part of itself. */
  lemma RerunGraphHasOutput(c: Crypto, answersYes: bytes -> bool, p: Purchase, r: HarnessReceipt,
                            m: seq<Entry<bytes>>, reference: bytes, body: bytes)
    requires AllPassed(AllChecks(c, answersYes, p, r, m, reference, body))
    ensures var h := RerunGraph(answersYes, Trusted(c, Index(r.nodes), m), r.nodes);
            PartOf(h, h, r.outputNode) && PartOf(Cone(h, r.outputNode), h, r.outputNode)
  {
    AcceptedNodes(c, answersYes, p, r, m, reference, body);
    ConeIsPart(RerunGraph(answersYes, Trusted(c, Index(r.nodes), m), r.nodes), r.outputNode);
  }

  /** Soundness: for every receipt, every materials map and every body, if all of the buyer's checks pass, then the
      body is what running the buyer's graph gives on the bytes behind the legs' attested digests, if what the output
      depends on has no cycle.  The graph is made of the receipt's own nodes, one for each id. */
  lemma AcceptedBodyIsEvaluation(c: Crypto, answersYes: bytes -> bool, p: Purchase, r: HarnessReceipt,
                                 m: seq<Entry<bytes>>, reference: bytes, body: bytes,
                                 k: Graph, origin: Outputs, rank: map<NodeId, nat>, values: set<bytes>)
    requires AllPassed(AllChecks(c, answersYes, p, r, m, reference, body))
    requires PartOf(k, RerunGraph(answersYes, Trusted(c, Index(r.nodes), m), r.nodes), r.outputNode)
    requires Acyclic(k, rank) && BehindLegs(c, k, origin)
    requires Covers(values, Trusted(c, Index(r.nodes), m), origin, body) && CollisionFree(c, values)
    ensures Represents(RerunGraph(answersYes, Trusted(c, Index(r.nodes), m), r.nodes), r.nodes)
    ensures Evaluate(answersYes, k, origin, rank, r.outputNode) == Some(body)
  {
    var value := AcceptedBodySolvesGraph(c, answersYes, p, r, m, reference, body, k, origin, values);
    SolutionIsEvaluation(answersYes, k, origin, rank, value, r.outputNode);
  }

  // ---------------------------------------------------------------- when the indexed graph was run

  /** Every input of every interior node of the graph is trusted. */
  predicate InputsTrusted(g: Graph, trusted: Outputs) {
    forall id | id in g && g[id].proof.Interior? :: forall i | i in g[id].inputs :: i in trusted
  }

  /** Running the graph gives, at every node, bytes with the digest the node commits to. */
  ghost predicate RunsAsCommitted(c: Crypto, answersYes: bytes -> bool, g: Graph, origin: Outputs,
                                  rank: map<NodeId, nat>)
    requires Acyclic(g, rank)
  {
    forall id | id in g :: RunsAsCommittedAt(c, answersYes, g, origin, rank, id)
  }

  ghost predicate RunsAsCommittedAt(c: Crypto, answersYes: bytes -> bool, g: Graph, origin: Outputs,
                                    rank: map<NodeId, nat>, id: NodeId)
    requires Acyclic(g, rank) && id in g
  {
    var v := Evaluate(answersYes, g, origin, rank, id);
    v.Some? && c.Sha256Hex(v.value) == g[id].outputDigest
  }

  lemma IndexRepresents(nodes: seq<Node>)
    ensures Represents(Index(nodes), nodes)
  {
    IndexIsLast(nodes);
  }

  /** Legs have bytes among `values`, and so have the results of every transform. */
  lemma EvaluationInValues(answersYes: bytes -> bool, g: Graph, origin: Outputs, rank: map<NodeId, nat>,
                           values: set<bytes>, trusted: Outputs, body: bytes, id: NodeId)
    requires Acyclic(g, rank) && Covers(values, trusted, origin, body)
    requires Evaluate(answersYes, g, origin, rank, id).Some?
    ensures Evaluate(answersYes, g, origin, rank, id).value in values
  {
  }

  lemma {:induction false} EvaluatedInputs(c: Crypto, answersYes: bytes -> bool, g: Graph, trusted: Outputs,
                                           origin: Outputs, rank: map<NodeId, nat>, values: set<bytes>, body: bytes,
                                           id: NodeId, inputs: seq<NodeId>)
    requires Acyclic(g, rank) && RunsAsCommitted(c, answersYes, g, origin, rank)
    requires Covers(values, trusted, origin, body) && CollisionFree(c, values)
    requires forall i | i in trusted && i in g :: c.Sha256Hex(trusted[i]) == g[i].outputDigest
    requires forall i | i in inputs :: Edge(g, id, i) && i in trusted && i in g
    ensures EvaluateAll(answersYes, g, origin, rank, id, inputs) == InputValues(trusted, inputs)
    decreases |inputs|
  {
    if inputs != [] {
      var i := inputs[0];
      assert i in inputs;
      assert RunsAsCommittedAt(c, answersYes, g, origin, rank, i);
      EvaluationInValues(answersYes, g, origin, rank, values, trusted, body, i);
      SameDigestSameBytes(c, values, Evaluate(answersYes, g, origin, rank, i).value, trusted[i]);
      EvaluatedInputs(c, answersYes, g, trusted, origin, rank, values, body, id, inputs[1..]);
    }
  }

  lemma CommittedRunReruns(c: Crypto, answersYes: bytes -> bool, g: Graph, trusted: Outputs, origin: Outputs,
                           rank: map<NodeId, nat>, values: set<bytes>, body: bytes)
    requires Acyclic(g, rank) && RunsAsCommitted(c, answersYes, g, origin, rank) && InputsTrusted(g, trusted)
    requires Covers(values, trusted, origin, body) && CollisionFree(c, values)
    requires forall i | i in trusted && i in g :: c.Sha256Hex(trusted[i]) == g[i].outputDigest
    requires forall id | id in g && g[id].proof.Interior? :: forall i | i in g[id].inputs && i in trusted :: i in g
    ensures Reruns(c, answersYes, g, trusted)
  {
    forall id | id in g && g[id].proof.Interior? ensures RerunsAt(c, answersYes, trusted, g[id]) {
      assert RunsAsCommittedAt(c, answersYes, g, origin, rank, id);
      EvaluatedInputs(c, answersYes, g, trusted, origin, rank, values, body, id, g[id].inputs);
    }
  }

  /** The graph a reader sees is the id index.  What the output depends on in it, or any such part of it, runs as its
      nodes commit, over inputs that were all shipped, exactly if re-running its nodes gives their digests: a check
      a buyer can make before trusting the body, and one that the program does not make. */
  lemma IndexedGraphRunsIff(c: Crypto, answersYes: bytes -> bool, p: Purchase, r: HarnessReceipt,
                            m: seq<Entry<bytes>>, reference: bytes, body: bytes,
                            k: Graph, origin: Outputs, rank: map<NodeId, nat>, values: set<bytes>)
    requires AllPassed(AllChecks(c, answersYes, p, r, m, reference, body))
    requires PartOf(k, Index(r.nodes), r.outputNode) && Acyclic(k, rank) && BehindLegs(c, k, origin)
    requires Covers(values, Trusted(c, Index(r.nodes), m), origin, body) && CollisionFree(c, values)
    ensures var trusted := Trusted(c, Index(r.nodes), m);
            Reruns(c, answersYes, k, trusted)
            <==> InputsTrusted(k, trusted) && RunsAsCommitted(c, answersYes, k, origin, rank)
  {
    var trusted := Trusted(c, Index(r.nodes), m);
    TrustedIsGenuine(c, Index(r.nodes), m);
    if Reruns(c, answersYes, k, trusted) {
      RerunIndexRuns(c, answersYes, p, r, m, reference, body, k, origin, rank, values);
    }
    if InputsTrusted(k, trusted) && RunsAsCommitted(c, answersYes, k, origin, rank) {
      CommittedRunReruns(c, answersYes, k, trusted, origin, rank, values, body);
    }
  }

  lemma SolutionRunsAsCommitted(c: Crypto, answersYes: bytes -> bool, g: Graph, origin: Outputs,
                                rank: map<NodeId, nat>, value: Outputs)
    requires Acyclic(g, rank) && Solves(answersYes, g, origin, value)
    requires forall id | id in g :: c.Sha256Hex(value[id]) == g[id].outputDigest
    ensures RunsAsCommitted(c, answersYes, g, origin, rank)
  {
    forall id | id in g ensures RunsAsCommittedAt(c, answersYes, g, origin, rank, id) {
      SolutionIsEvaluation(answersYes, g, origin, rank, value, id);
    }
  }

  lemma RerunInputsTrusted(c: Crypto, answersYes: bytes -> bool, g: Graph, trusted: Outputs)
    requires Reruns(c, answersYes, g, trusted)
    ensures InputsTrusted(g, trusted)
  {
    forall id | id in g && g[id].proof.Interior? ensures forall i | i in g[id].inputs :: i in trusted {
      assert RerunsAt(c, answersYes, trusted, g[id]);
    }
  }

  /** If it does, the body is what running the id index gives. */
  lemma RerunIndexRuns(c: Crypto, answersYes: bytes -> bool, p: Purchase, r: HarnessReceipt,
                       m: seq<Entry<bytes>>, reference: bytes, body: bytes,
                       k: Graph, origin: Outputs, rank: map<NodeId, nat>, values: set<bytes>)
    requires AllPassed(AllChecks(c, answersYes, p, r, m, reference, body))
    requires PartOf(k, Index(r.nodes), r.outputNode) && Reruns(c, answersYes, k, Trusted(c, Index(r.nodes), m))
    requires Acyclic(k, rank) && BehindLegs(c, k, origin)
    requires Covers(values, Trusted(c, Index(r.nodes), m), origin, body) && CollisionFree(c, values)
    ensures InputsTrusted(k, Trusted(c, Index(r.nodes), m)) && RunsAsCommitted(c, answersYes, k, origin, rank)
    ensures Evaluate(answersYes, k, origin, rank, r.outputNode) == Some(body)
  {
    var trusted := Trusted(c, Index(r.nodes), m);
    IndexRepresents(r.nodes);
    RepresentedIsConsistent(c, answersYes, p, r, m, reference, body, Index(r.nodes), k);
    var value := ConsistentIsSolved(c, answersYes, k, r.outputNode, trusted, body, origin, values);
    SolutionRunsAsCommitted(c, answersYes, k, origin, rank, value);
    SolutionIsEvaluation(answersYes, k, origin, rank, value, r.outputNode);
    RerunInputsTrusted(c, answersYes, k, trusted);
  }

  /** With unique ids, which a buyer can check, an accepted receipt always does, in every part. */
  lemma UniqueIdsRerun(c: Crypto, answersYes: bytes -> bool, p: Purchase, r: HarnessReceipt,
                       m: seq<Entry<bytes>>, reference: bytes, body: bytes, k: Graph)
    requires UniqueIds(r.nodes) && AllPassed(AllChecks(c, answersYes, p, r, m, reference, body))
    requires PartOf(k, Index(r.nodes), r.outputNode)
    ensures Reruns(c, answersYes, k, Trusted(c, Index(r.nodes), m))
  {
    var trusted := Trusted(c, Index(r.nodes), m);
    AcceptedRerunGraph(c, answersYes, p, r, m, reference, body);
    RerunGraphUnique(answersYes, trusted, r.nodes);
    assert forall id | id in k :: k[id] == Index(r.nodes)[id];
  }
}
