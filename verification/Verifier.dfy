/** The receipt verifier: one named check per assertion about a seller-supplied node graph. */
module Verifier {
  import opened Bytes
  import opened Core

  type Graph = map<NodeId, Node>

  /** The id index the verifier builds: of nodes that share an id the last one stays. */
  function Index(nodes: seq<Node>): Graph {
    if nodes == [] then map[]
    else Index(nodes[..|nodes| - 1])[nodes[|nodes| - 1].id := nodes[|nodes| - 1]]
  }

  predicate IsLastWithId(nodes: seq<Node>, k: nat) {
    k < |nodes| && forall j | k < j < |nodes| :: nodes[j].id != nodes[k].id
  }

  lemma {:induction false} IndexIsLast(nodes: seq<Node>)
    ensures forall n | n in nodes :: n.id in Index(nodes)
    ensures forall id | id in Index(nodes) :: Index(nodes)[id] in nodes && Index(nodes)[id].id == id
    ensures forall k | 0 <= k < |nodes| && IsLastWithId(nodes, k) :: Index(nodes)[nodes[k].id] == nodes[k]
  {
    if nodes != [] {
      var k := |nodes| - 1;
      var init := nodes[..k];
      IndexIsLast(init);
      assert nodes == init + [nodes[k]];
      forall j | 0 <= j < |nodes| && IsLastWithId(nodes, j) ensures Index(nodes)[nodes[j].id] == nodes[j] {
        if j < k {
          assert nodes[k].id != nodes[j].id;
          assert init[j] == nodes[j] && IsLastWithId(init, j);
        }
      }
    }
  }

  /** With unique ids the index is the set of nodes. */
  lemma IndexUnique(nodes: seq<Node>)
    requires UniqueIds(nodes)
    ensures forall n | n in nodes :: n.id in Index(nodes) && Index(nodes)[n.id] == n
    ensures forall id | id in Index(nodes) :: Index(nodes)[id] in nodes && Index(nodes)[id].id == id
  {
    IndexIsLast(nodes);
    forall n | n in nodes ensures Index(nodes)[n.id] == n {
      var k :| 0 <= k < |nodes| && nodes[k] == n;
      assert IsLastWithId(nodes, k);
    }
  }

  // ---------------------------------------------------------------- reachability

  /** `b` feeds `a`: `a` is a resolved interior node with `b` among its inputs. */
  predicate Edge(g: Graph, a: NodeId, b: NodeId) {
    a in g && g[a].proof.Interior? && b in g[a].inputs
  }

  predicate IsPath(g: Graph, p: seq<NodeId>) {
    p != [] && forall i | 0 <= i < |p| - 1 :: Edge(g, p[i], p[i + 1])
  }

  /** There is a path from `a` to `b` on which every node before `b` is interior. */
  ghost predicate Reaches(g: Graph, a: NodeId, b: NodeId) {
    exists p :: IsPath(g, p) && p[0] == a && p[|p| - 1] == b
  }

  ghost predicate ReachesLeg(g: Graph, start: NodeId, id: NodeId) {
    Reaches(g, start, id) && id in g && g[id].proof.Leg?
  }

  lemma ReachesSelf(g: Graph, a: NodeId)
    ensures Reaches(g, a, a)
  {
    assert IsPath(g, [a]);
  }

  lemma ReachesStep(g: Graph, a: NodeId, b: NodeId, c: NodeId)
    requires Reaches(g, a, b) && Edge(g, b, c)
    ensures Reaches(g, a, c)
  {
    var p :| IsPath(g, p) && p[0] == a && p[|p| - 1] == b;
    var q := p + [c];
    assert forall i | 0 <= i < |q| - 1 :: Edge(g, q[i], q[i + 1]);
    assert IsPath(g, q) && q[0] == a && q[|q| - 1] == c;
  }

  /** A set that holds the start and is closed under edges holds everything reachable. */
  lemma ClosedHoldsReachable(g: Graph, s: set<NodeId>, a: NodeId, b: NodeId)
    requires a in s && forall x, y | x in s && Edge(g, x, y) :: y in s
    requires Reaches(g, a, b)
    ensures b in s
  {
    var p :| IsPath(g, p) && p[0] == a && p[|p| - 1] == b;
    var i := 0;
    while i < |p| - 1
      invariant 0 <= i < |p| && p[i] in s
    {
      assert Edge(g, p[i], p[i + 1]);
      i := i + 1;
    }
  }

  /** Every id the search can meet. */
  ghost function Universe(g: Graph, start: NodeId): set<NodeId> {
    {start} + set x, y | x in g && y in g[x].inputs :: y
  }

  ghost predicate Distinct(ids: seq<NodeId>) {
    forall i, j | 0 <= i < j < |ids| :: ids[i] != ids[j]
  }

  /** What the search keeps of its stack and of the ids seen: everything in them is reachable, and every edge out of
      a seen id leads to one that is seen or still to come. */
  ghost predicate Searching(g: Graph, start: NodeId, stack: seq<NodeId>, seen: set<NodeId>) {
    && (forall x | x in stack || x in seen :: x in Universe(g, start) && Reaches(g, start, x))
    && (start in seen || start in stack)
    && (forall x, y | x in seen && Edge(g, x, y) :: y in seen || y in stack)
  }

  lemma InputsAreReached(g: Graph, start: NodeId, id: NodeId)
    requires Reaches(g, start, id) && id in g && g[id].proof.Interior?
    ensures forall y | y in g[id].inputs :: y in Universe(g, start) && Reaches(g, start, y)
  {
    forall y | y in g[id].inputs ensures y in Universe(g, start) && Reaches(g, start, y) {
      assert Edge(g, id, y);
      ReachesStep(g, start, id, y);
    }
  }

  /** One turn keeps it: an id is taken off the stack, and its inputs are put there if it is an interior node not
      seen before. */
  lemma SearchStep(g: Graph, start: NodeId, rest: seq<NodeId>, id: NodeId, seen: set<NodeId>, added: seq<NodeId>)
    requires Searching(g, start, rest + [id], seen)
    requires added == if id !in seen && id in g && g[id].proof.Interior? then g[id].inputs else []
    ensures Searching(g, start, rest + added, seen + {id})
    ensures id in Universe(g, start)
  {
    var before, after := rest + [id], rest + added;
    assert before[|rest|] == id;
    assert forall x :: x in before <==> x in rest || x == id;
    assert forall x :: x in after <==> x in rest || x in added;
    if added != [] {
      InputsAreReached(g, start, id);
    }
  }

  /** The attestations `legs` are those of the nodes `ids`: exactly the legs reachable from `start`, each once. */
  ghost predicate LegsOf(g: Graph, start: NodeId, ids: seq<NodeId>, legs: seq<LegAttestation>) {
    && |legs| == |ids| && Distinct(ids)
    && (forall i | 0 <= i < |ids| :: ReachesLeg(g, start, ids[i]) && legs[i] == g[ids[i]].proof.att)
    && (forall id | ReachesLeg(g, start, id) :: id in ids)
  }

  /** The attestations `legs` are those of exactly the legs reachable from `start`, each leg's once. */
  ghost predicate ExactlyReachableLegs(g: Graph, start: NodeId, legs: seq<LegAttestation>) {
    exists ids :: LegsOf(g, start, ids, legs)
  }

  /** The attestations collected are those of the legs among the ids seen, each once. */
  ghost predicate Collected(g: Graph, seen: set<NodeId>, ids: seq<NodeId>, legs: seq<LegAttestation>) {
    && |legs| == |ids| && Distinct(ids)
    && (forall x :: x in ids <==> x in seen && x in g && g[x].proof.Leg?)
    && (forall i | 0 <= i < |ids| :: legs[i] == g[ids[i]].proof.att)
  }

  lemma CollectStep(g: Graph, seen: set<NodeId>, ids: seq<NodeId>, legs: seq<LegAttestation>, id: NodeId)
    requires Collected(g, seen, ids, legs) && id !in seen
    ensures if id in g && g[id].proof.Leg?
            then Collected(g, seen + {id}, ids + [id], legs + [g[id].proof.att])
            else Collected(g, seen + {id}, ids, legs)
  {
    if id in g && g[id].proof.Leg? {
      var more := ids + [id];
      assert forall x :: x in more <==> x in ids || x == id;
    }
  }

  /** `leg_ancestors`: the worklist search, on any graph: cyclic, with dangling inputs or repeated ones. */
  method LegAncestors(g: Graph, start: NodeId) returns (legs: seq<LegAttestation>)
    ensures ExactlyReachableLegs(g, start, legs)
  {
    legs := [];
    ghost var ids: seq<NodeId> := [];
    var stack := [start];
    var seen: set<NodeId> := {};
    ReachesSelf(g, start);
    while stack != []
      invariant Searching(g, start, stack, seen)
      invariant Collected(g, seen, ids, legs)
      decreases Universe(g, start) - seen, |stack|
    {
      var id := stack[|stack| - 1];
      ghost var before, wasSeen := stack, seen;
      stack := stack[..|stack| - 1];
      assert before == stack + [id];
      if id in seen {
        SearchStep(g, start, stack, id, seen, []);
        assert stack + [] == stack && seen + {id} == seen;
        continue;
      }
      SearchStep(g, start, stack, id, seen, if id in g && g[id].proof.Interior? then g[id].inputs else []);
      assert stack + [] == stack;
      CollectStep(g, seen, ids, legs, id);
      seen := seen + {id};
      assert id in Universe(g, start) - wasSeen && id !in Universe(g, start) - seen;
      if id in g {
        match g[id].proof
        case Leg(att) =>
          legs := legs + [att];
          ids := ids + [id];
        case Interior(_) =>
          stack := stack + g[id].inputs;
      }
    }
    forall id | ReachesLeg(g, start, id) ensures id in ids {
      ClosedHoldsReachable(g, seen, start, id);
    }
    assert LegsOf(g, start, ids, legs);
  }

  // ---------------------------------------------------------------- checks

  datatype Expectation = Expectation(
    manifest: Manifest,
    notaryPubkey: Option<bytes>,
    servedOutputDigest: bytes,
    paymentReference: bytes,
    servedRequestDigest: Option<bytes>,
    recomputed: seq<(NodeId, bytes)>)

  /** What a check says: the text of its name, as data. */
  datatype CheckName =
    | ManifestMatches
    | DeliveredMatchesOutput
    | OutputNodeExists
    | BoundToPayment
    | AnswersRequest
    | InputResolves(node: NodeId, input: NodeId)
    | LegProofValid(node: NodeId)
    | HostAllowed(node: NodeId, host: bytes)
    | OutputIsLegResponse(node: NodeId)
    | NotaryKeyPinned(node: NodeId)
    | RecomputeMatches(node: NodeId)
    | NotReverified(node: NodeId)
    | MaterialMatches(node: NodeId)

  datatype Check = Check(name: CheckName, passed: bool)

  predicate AllPassed(checks: seq<Check>) {
    forall k | k in checks :: k.passed
  }

  /** The first recomputed digest recorded for `id`. */
  function FindRecomputed(recomputed: seq<(NodeId, bytes)>, id: NodeId): Option<bytes> {
    if recomputed == [] then None
    else if recomputed[0].0 == id then Some(recomputed[0].1)
    else FindRecomputed(recomputed[1..], id)
  }

  /** Every leg the output depends on, and at least one, answered the expected request. */
  ghost predicate AnswersTheRequest(g: Graph, output: NodeId, digest: bytes) {
    && (exists id :: ReachesLeg(g, output, id))
    && forall id | ReachesLeg(g, output, id) :: g[id].proof.att.claim.requestDigest == digest
  }

  predicate EdgesResolve(g: Graph, n: Node) {
    forall i | i in n.inputs :: i in g
  }

  predicate LegAccepted(c: Crypto, e: Expectation, n: Node)
    requires n.proof.Leg?
  {
    var att := n.proof.att;
    && VerifyProof(c, att).Ok?
    && att.claim.host in e.manifest.hosts
    && n.outputDigest == att.claim.responseDigest
    && (e.notaryPubkey.Some? ==> att.proof.pubkey == e.notaryPubkey.value)
  }

  predicate NodeAccepted(c: Crypto, e: Expectation, g: Graph, n: Node) {
    && EdgesResolve(g, n)
    && match n.proof
       case Leg(_) => LegAccepted(c, e, n)
       case Interior(_) => FindRecomputed(e.recomputed, n.id) == Some(n.outputDigest)
  }

  /** What acceptance means, without the order of the checks. */
  ghost predicate Accepts(c: Crypto, r: HarnessReceipt, e: Expectation) {
    var g := Index(r.nodes);
    && r.manifestId == e.manifest.id
    && r.outputNode in g && g[r.outputNode].outputDigest == e.servedOutputDigest
    && r.paymentReference == Some(e.paymentReference)
    && (e.servedRequestDigest.Some? ==> AnswersTheRequest(g, r.outputNode, e.servedRequestDigest.value))
    && forall n | n in r.nodes :: NodeAccepted(c, e, g, n)
  }

  /** The checks on one leg, in the order they are shown. */
  function LegChecks(c: Crypto, e: Expectation, id: NodeId, digest: bytes, att: LegAttestation): seq<Check> {
    [Check(LegProofValid(id), VerifyProof(c, att).Ok?),
     Check(HostAllowed(id, att.claim.host), att.claim.host in e.manifest.hosts),
     Check(OutputIsLegResponse(id), digest == att.claim.responseDigest)]
    + if e.notaryPubkey.None? then []
      else [Check(NotaryKeyPinned(id), att.proof.pubkey == e.notaryPubkey.value)]
  }

  function ProofChecks(c: Crypto, e: Expectation, n: Node): seq<Check> {
    match n.proof
    case Leg(att) => LegChecks(c, e, n.id, n.outputDigest, att)
    case Interior(_) =>
      var d := FindRecomputed(e.recomputed, n.id);
      if d.None? then [Check(NotReverified(n.id), false)]
      else [Check(RecomputeMatches(n.id), d.value == n.outputDigest)]
  }

  function InputChecks(g: Graph, id: NodeId, inputs: seq<NodeId>): seq<Check> {
    seq(|inputs|, i requires 0 <= i < |inputs| => Check(InputResolves(id, inputs[i]), inputs[i] in g))
  }

  function NodeChecks(c: Crypto, e: Expectation, g: Graph, nodes: seq<Node>): seq<Check> {
    if nodes == [] then []
    else
      var n := nodes[|nodes| - 1];
      NodeChecks(c, e, g, nodes[..|nodes| - 1]) + (InputChecks(g, n.id, n.inputs) + ProofChecks(c, e, n))
  }

  ghost function RequestChecks(e: Expectation, g: Graph, output: NodeId): seq<Check> {
    if e.servedRequestDigest.None? then []
    else [Check(AnswersRequest, AnswersTheRequest(g, output, e.servedRequestDigest.value))]
  }

  function HeadChecks(r: HarnessReceipt, e: Expectation, g: Graph): seq<Check> {
    [Check(ManifestMatches, r.manifestId == e.manifest.id),
     if r.outputNode in g
     then Check(DeliveredMatchesOutput, g[r.outputNode].outputDigest == e.servedOutputDigest)
     else Check(OutputNodeExists, false),
     Check(BoundToPayment, r.paymentReference == Some(e.paymentReference))]
  }

  /** Every check of `verify`, in order. */
  ghost function Checks(c: Crypto, r: HarnessReceipt, e: Expectation): seq<Check> {
    var g := Index(r.nodes);
    HeadChecks(r, e, g) + RequestChecks(e, g, r.outputNode) + NodeChecks(c, e, g, r.nodes)
  }

  // ---------------------------------------------------------------- what each check says

  /** Entry `j` is the first recorded for `id`. */
  predicate FirstEntry(recomputed: seq<(NodeId, bytes)>, id: NodeId, j: nat) {
    j < |recomputed| && recomputed[j].0 == id && forall i | 0 <= i < j :: recomputed[i].0 != id
  }

  predicate NoEntry(recomputed: seq<(NodeId, bytes)>, id: NodeId) {
    forall j | 0 <= j < |recomputed| :: recomputed[j].0 != id
  }

  lemma {:induction false} FindRecomputedIs(recomputed: seq<(NodeId, bytes)>, id: NodeId)
    ensures FindRecomputed(recomputed, id).None? <==> NoEntry(recomputed, id)
    ensures forall j: nat | FirstEntry(recomputed, id, j) :: FindRecomputed(recomputed, id) == Some(recomputed[j].1)
    ensures FindRecomputed(recomputed, id).Some? ==> exists j: nat :: FirstEntry(recomputed, id, j)
  {
    if recomputed != [] {
      var rest := recomputed[1..];
      FindRecomputedIs(rest, id);
      assert forall j | 1 <= j < |recomputed| :: recomputed[j] == rest[j - 1];
      if recomputed[0].0 == id {
        assert FirstEntry(recomputed, id, 0);
      } else {
        forall j: nat | FirstEntry(recomputed, id, j) ensures FindRecomputed(recomputed, id) == Some(recomputed[j].1) {
          assert FirstEntry(rest, id, j - 1);
        }
        if FindRecomputed(rest, id).Some? {
          var j: nat :| FirstEntry(rest, id, j);
          assert FirstEntry(recomputed, id, j + 1);
        } else {
          assert forall j | 0 <= j < |rest| :: rest[j] == recomputed[j + 1];
        }
      }
    }
  }

  /** The check is about node `n` of a receipt with these ids, and its flag is the assertion it names. */
  ghost predicate SaysOf(c: Crypto, e: Expectation, ids: set<NodeId>, n: Node, k: Check) {
    match k.name
    case InputResolves(id, i) => id == n.id && i in n.inputs && (k.passed <==> i in ids)
    case LegProofValid(id) => id == n.id && n.proof.Leg? && (k.passed <==> VerifyProof(c, n.proof.att) == Ok(()))
    case HostAllowed(id, h) =>
      id == n.id && n.proof.Leg? && h == n.proof.att.claim.host && (k.passed <==> h in e.manifest.hosts)
    case OutputIsLegResponse(id) =>
      id == n.id && n.proof.Leg? && (k.passed <==> n.outputDigest == n.proof.att.claim.responseDigest)
    case NotaryKeyPinned(id) =>
      && id == n.id && n.proof.Leg? && e.notaryPubkey.Some?
      && (k.passed <==> n.proof.att.proof.pubkey == e.notaryPubkey.value)
    case RecomputeMatches(id) =>
      && id == n.id && n.proof.Interior?
      && exists j: nat :: FirstEntry(e.recomputed, id, j) && (k.passed <==> e.recomputed[j].1 == n.outputDigest)
    case NotReverified(id) => id == n.id && n.proof.Interior? && NoEntry(e.recomputed, id) && !k.passed
    case _ => false
  }

  /** Each assertion about node `n` has its check in the list. */
  ghost predicate ShowsNode(c: Crypto, e: Expectation, ids: set<NodeId>, n: Node, checks: seq<Check>) {
    && (forall i | i in n.inputs :: Check(InputResolves(n.id, i), i in ids) in checks)
    && match n.proof
       case Leg(att) =>
         && Check(LegProofValid(n.id), VerifyProof(c, att) == Ok(())) in checks
         && Check(HostAllowed(n.id, att.claim.host), att.claim.host in e.manifest.hosts) in checks
         && Check(OutputIsLegResponse(n.id), n.outputDigest == att.claim.responseDigest) in checks
         && (e.notaryPubkey.Some? ==> Check(NotaryKeyPinned(n.id), att.proof.pubkey == e.notaryPubkey.value) in checks)
       case Interior(_) =>
         if NoEntry(e.recomputed, n.id) then Check(NotReverified(n.id), false) in checks
         else exists j: nat :: FirstEntry(e.recomputed, n.id, j)
                               && Check(RecomputeMatches(n.id), e.recomputed[j].1 == n.outputDigest) in checks
  }

  /** The names of the checks about a node, in the order they are shown. */
  function NodeNames(e: Expectation, n: Node): seq<CheckName> {
    seq(|n.inputs|, i requires 0 <= i < |n.inputs| => InputResolves(n.id, n.inputs[i]))
    + match n.proof
      case Leg(att) =>
        [LegProofValid(n.id), HostAllowed(n.id, att.claim.host), OutputIsLegResponse(n.id)]
        + (if e.notaryPubkey.Some? then [NotaryKeyPinned(n.id)] else [])
      case Interior(_) => [if NoEntry(e.recomputed, n.id) then NotReverified(n.id) else RecomputeMatches(n.id)]
  }

  function NamesInOrder(e: Expectation, nodes: seq<Node>): seq<CheckName> {
    if nodes == [] then [] else NodeNames(e, nodes[0]) + NamesInOrder(e, nodes[1..])
  }

  function NamesOf(checks: seq<Check>): (names: seq<CheckName>)
    ensures |names| == |checks|
  {
    seq(|checks|, i requires 0 <= i < |checks| => checks[i].name)
  }

  lemma NamesAppend(a: seq<Check>, b: seq<Check>)
    ensures NamesOf(a + b) == NamesOf(a) + NamesOf(b)
  {
  }

  lemma {:induction false} NamesSnoc(e: Expectation, nodes: seq<Node>, n: Node)
    ensures NamesInOrder(e, nodes + [n]) == NamesInOrder(e, nodes) + NodeNames(e, n)
  {
    if nodes == [] {
      assert nodes + [n] == [n];
      assert [n][1..] == [];
    } else {
      assert (nodes + [n])[1..] == nodes[1..] + [n];
      NamesSnoc(e, nodes[1..], n);
      Assoc(NodeNames(e, nodes[0]), NamesInOrder(e, nodes[1..]), NodeNames(e, n));
    }
  }

  lemma InputChecksSay(c: Crypto, e: Expectation, g: Graph, n: Node)
    ensures var k := InputChecks(g, n.id, n.inputs);
            && (forall x | x in k :: SaysOf(c, e, g.Keys, n, x))
            && (forall i | i in n.inputs :: Check(InputResolves(n.id, i), i in g.Keys) in k)
  {
    var k := InputChecks(g, n.id, n.inputs);
    forall i | i in n.inputs ensures Check(InputResolves(n.id, i), i in g.Keys) in k {
      var j :| 0 <= j < |n.inputs| && n.inputs[j] == i;
      assert k[j] in k;
    }
  }

  lemma LegChecksSay(c: Crypto, e: Expectation, ids: set<NodeId>, n: Node)
    requires n.proof.Leg?
    ensures forall x | x in ProofChecks(c, e, n) :: SaysOf(c, e, ids, n, x)
    ensures ShowsNode(c, e, ids, n.(inputs := []), ProofChecks(c, e, n))
  {
    var k, att := ProofChecks(c, e, n), n.proof.att;
    assert k[0] == Check(LegProofValid(n.id), VerifyProof(c, att) == Ok(())) && k[0] in k;
    assert k[1] == Check(HostAllowed(n.id, att.claim.host), att.claim.host in e.manifest.hosts) && k[1] in k;
    assert k[2] == Check(OutputIsLegResponse(n.id), n.outputDigest == att.claim.responseDigest) && k[2] in k;
    if e.notaryPubkey.Some? {
      assert k[3] == Check(NotaryKeyPinned(n.id), att.proof.pubkey == e.notaryPubkey.value) && k[3] in k;
    }
  }

  lemma RecomputeCheckSays(c: Crypto, e: Expectation, ids: set<NodeId>, n: Node)
    requires n.proof.Interior?
    ensures forall x | x in ProofChecks(c, e, n) :: SaysOf(c, e, ids, n, x)
    ensures ShowsNode(c, e, ids, n.(inputs := []), ProofChecks(c, e, n))
  {
    var k := ProofChecks(c, e, n);
    FindRecomputedIs(e.recomputed, n.id);
    assert k[0] in k;
    if FindRecomputed(e.recomputed, n.id).Some? {
      var j: nat :| FirstEntry(e.recomputed, n.id, j);
      assert k[0] == Check(RecomputeMatches(n.id), e.recomputed[j].1 == n.outputDigest);
    }
  }

  /** The checks about one node: what each says, that none is missing, and their order. */
  ghost predicate ReportsNode(c: Crypto, e: Expectation, ids: set<NodeId>, n: Node, checks: seq<Check>) {
    && (forall k | k in checks :: SaysOf(c, e, ids, n, k)) && ShowsNode(c, e, ids, n, checks)
    && NamesOf(checks) == NodeNames(e, n)
  }

  lemma NodeChecksSay(c: Crypto, e: Expectation, g: Graph, n: Node)
    ensures ReportsNode(c, e, g.Keys, n, InputChecks(g, n.id, n.inputs) + ProofChecks(c, e, n))
  {
    var a, b := InputChecks(g, n.id, n.inputs), ProofChecks(c, e, n);
    InputChecksSay(c, e, g, n);
    if n.proof.Leg? {
      LegChecksSay(c, e, g.Keys, n);
    } else {
      RecomputeCheckSays(c, e, g.Keys, n);
    }
    FindRecomputedIs(e.recomputed, n.id);
    ShowsAppend(c, e, g.Keys, n, a, b);
    NamesAppend(a, b);
  }

  lemma ShowsAppend(c: Crypto, e: Expectation, ids: set<NodeId>, n: Node, a: seq<Check>, b: seq<Check>)
    requires forall i | i in n.inputs :: Check(InputResolves(n.id, i), i in ids) in a
    requires ShowsNode(c, e, ids, n.(inputs := []), b)
    ensures ShowsNode(c, e, ids, n, a + b)
  {
  }

  lemma ShowsInMore(c: Crypto, e: Expectation, ids: set<NodeId>, n: Node, a: seq<Check>, b: seq<Check>)
    requires ShowsNode(c, e, ids, n, a) && forall k | k in a :: k in b
    ensures ShowsNode(c, e, ids, n, b)
  {
  }

  /** The check is about some node, and says what it names. */
  ghost predicate SaysOfSome(c: Crypto, e: Expectation, ids: set<NodeId>, nodes: seq<Node>, k: Check) {
    exists n :: n in nodes && SaysOf(c, e, ids, n, k)
  }

  /** The same for the checks about all nodes. */
  ghost predicate ReportsNodes(c: Crypto, e: Expectation, ids: set<NodeId>, nodes: seq<Node>, checks: seq<Check>) {
    && (forall k | k in checks :: SaysOfSome(c, e, ids, nodes, k))
    && (forall n | n in nodes :: ShowsNode(c, e, ids, n, checks))
    && NamesOf(checks) == NamesInOrder(e, nodes)
  }

  lemma {:induction false} WalkSays(c: Crypto, e: Expectation, g: Graph, nodes: seq<Node>)
    ensures ReportsNodes(c, e, g.Keys, nodes, NodeChecks(c, e, g, nodes))
  {
    if nodes != [] {
      var k := |nodes| - 1;
      var n, init := nodes[k], nodes[..k];
      var before, last := NodeChecks(c, e, g, init), InputChecks(g, n.id, n.inputs) + ProofChecks(c, e, n);
      WalkSays(c, e, g, init);
      NodeChecksSay(c, e, g, n);
      assert nodes == init + [n];
      NamesSnoc(e, init, n);
      NamesAppend(before, last);
      forall x | x in before + last ensures SaysOfSome(c, e, g.Keys, nodes, x) {
        if x in before {
          var m :| m in init && SaysOf(c, e, g.Keys, m, x);
          assert m in nodes;
        } else {
          assert n in nodes && SaysOf(c, e, g.Keys, n, x);
        }
      }
      forall m | m in nodes ensures ShowsNode(c, e, g.Keys, m, before + last) {
        if m in init {
          ShowsInMore(c, e, g.Keys, m, before, before + last);
        } else {
          ShowsInMore(c, e, g.Keys, m, last, before + last);
        }
      }
    }
  }

  function IdsOf(nodes: seq<Node>): set<NodeId> {
    set n | n in nodes :: n.id
  }

  /** For every check of a verification, by its name: its flag is the assertion it names. */
  ghost predicate Says(c: Crypto, r: HarnessReceipt, e: Expectation, k: Check) {
    match k.name
    case ManifestMatches => k.passed <==> r.manifestId == e.manifest.id
    case DeliveredMatchesOutput =>
      && r.outputNode in IdsOf(r.nodes) && r.outputNode in Index(r.nodes)
      && (k.passed <==> Index(r.nodes)[r.outputNode].outputDigest == e.servedOutputDigest)
    case OutputNodeExists => r.outputNode !in IdsOf(r.nodes) && !k.passed
    case BoundToPayment => k.passed <==> r.paymentReference == Some(e.paymentReference)
    case AnswersRequest =>
      && e.servedRequestDigest.Some?
      && (k.passed <==> AnswersTheRequest(Index(r.nodes), r.outputNode, e.servedRequestDigest.value))
    case _ => SaysOfSome(c, e, IdsOf(r.nodes), r.nodes, k)
  }

  /** The names of all checks of a verification, in the order they are shown. */
  function AllNames(r: HarnessReceipt, e: Expectation): seq<CheckName> {
    [ManifestMatches,
     if r.outputNode in IdsOf(r.nodes) then DeliveredMatchesOutput else OutputNodeExists,
     BoundToPayment]
    + (if e.servedRequestDigest.Some? then [AnswersRequest] else [])
    + NamesInOrder(e, r.nodes)
  }

  lemma IndexIds(nodes: seq<Node>)
    ensures Index(nodes).Keys == IdsOf(nodes)
  {
    IndexIsLast(nodes);
  }

  lemma HeadChecksSay(c: Crypto, r: HarnessReceipt, e: Expectation)
    ensures var k := HeadChecks(r, e, Index(r.nodes)) + RequestChecks(e, Index(r.nodes), r.outputNode);
            && (forall x | x in k :: Says(c, r, e, x))
            && NamesOf(k) == AllNames(r, e)[..|k|]
            && |k| == if e.servedRequestDigest.Some? then 4 else 3
  {
    IndexIds(r.nodes);
    var k := HeadChecks(r, e, Index(r.nodes)) + RequestChecks(e, Index(r.nodes), r.outputNode);
    forall x | x in k ensures Says(c, r, e, x) {
      var i :| 0 <= i < |k| && k[i] == x;
    }
  }

  /** Every check of a verification says what its name says, every assertion about every node has its check, and the
      checks come in the order of the program. */
  ghost predicate Reports(c: Crypto, r: HarnessReceipt, e: Expectation, checks: seq<Check>) {
    && (forall k | k in checks :: Says(c, r, e, k))
    && (forall n | n in r.nodes :: ShowsNode(c, e, IdsOf(r.nodes), n, checks))
    && NamesOf(checks) == AllNames(r, e)
  }

  lemma ChecksSay(c: Crypto, r: HarnessReceipt, e: Expectation)
    ensures Reports(c, r, e, Checks(c, r, e))
  {
    var g := Index(r.nodes);
    var head, rest := HeadChecks(r, e, g) + RequestChecks(e, g, r.outputNode), NodeChecks(c, e, g, r.nodes);
    HeadChecksSay(c, r, e);
    WalkSays(c, e, g, r.nodes);
    IndexIds(r.nodes);
    NamesAppend(head, rest);
    forall x | x in rest ensures Says(c, r, e, x) {
      SaysOfSomeIsSays(c, r, e, x);
    }
    forall n | n in r.nodes ensures ShowsNode(c, e, IdsOf(r.nodes), n, head + rest) {
      ShowsInMore(c, e, IdsOf(r.nodes), n, rest, head + rest);
    }
    assert AllNames(r, e) == AllNames(r, e)[..|head|] + NamesInOrder(e, r.nodes);
  }

  lemma SaysOfSomeIsSays(c: Crypto, r: HarnessReceipt, e: Expectation, k: Check)
    requires SaysOfSome(c, e, IdsOf(r.nodes), r.nodes, k)
    ensures Says(c, r, e, k)
  {
    var n :| n in r.nodes && SaysOf(c, e, IdsOf(r.nodes), n, k);
  }

  lemma ChecksMean(c: Crypto, r: HarnessReceipt, e: Expectation, checks: seq<Check>)
    requires checks == Checks(c, r, e)
    ensures (AllPassed(checks) <==> Accepts(c, r, e)) && Reports(c, r, e, checks)
  {
    ChecksDecide(c, r, e);
    ChecksSay(c, r, e);
  }

  lemma ProofChecksOf(c: Crypto, e: Expectation, g: Graph, n: Node, checks: seq<Check>, inputs: seq<Check>)
    requires inputs == InputChecks(g, n.id, n.inputs) && checks == inputs + ProofChecks(c, e, n)
    ensures checks == InputChecks(g, n.id, n.inputs) + ProofChecks(c, e, n) && ReportsNode(c, e, g.Keys, n, checks)
  {
    NodeChecksSay(c, e, g, n);
  }

  /** One turn of the walk over the nodes: the checks it pushes. */
  method VerifyNode(c: Crypto, e: Expectation, g: Graph, node: Node) returns (checks: seq<Check>)
    ensures checks == InputChecks(g, node.id, node.inputs) + ProofChecks(c, e, node)
    ensures ReportsNode(c, e, g.Keys, node, checks)
  {
    checks := [];
    var j := 0;
    while j < |node.inputs|
      invariant 0 <= j <= |node.inputs|
      invariant checks == InputChecks(g, node.id, node.inputs[..j])
    {
      checks := checks + [Check(InputResolves(node.id, node.inputs[j]), node.inputs[j] in g)];
      j := j + 1;
    }
    assert node.inputs[..j] == node.inputs;
    ghost var inputs := checks;
    match node.proof {
      case Leg(att) =>
        checks := checks + [Check(LegProofValid(node.id), VerifyProof(c, att).Ok?)];
        checks := checks + [Check(HostAllowed(node.id, att.claim.host), att.claim.host in e.manifest.hosts)];
        checks := checks + [Check(OutputIsLegResponse(node.id), node.outputDigest == att.claim.responseDigest)];
        if e.notaryPubkey.Some? {
          checks := checks + [Check(NotaryKeyPinned(node.id), att.proof.pubkey == e.notaryPubkey.value)];
        }
      case Interior(_) =>
        var d := FindRecomputed(e.recomputed, node.id);
        if d.Some? {
          checks := checks + [Check(RecomputeMatches(node.id), d.value == node.outputDigest)];
        } else {
          checks := checks + [Check(NotReverified(node.id), false)];
        }
    }
    ProofChecksOf(c, e, g, node, checks, inputs);
  }

  /** "Walk every node." */
  method WalkNodes(c: Crypto, e: Expectation, g: Graph, nodes: seq<Node>, before: seq<Check>)
    returns (checks: seq<Check>)
    ensures checks == before + NodeChecks(c, e, g, nodes)
    ensures ReportsNodes(c, e, g.Keys, nodes, checks[|before|..])
  {
    checks := before;
    var i := 0;
    while i < |nodes|
      invariant 0 <= i <= |nodes|
      invariant checks == before + NodeChecks(c, e, g, nodes[..i])
    {
      var more := VerifyNode(c, e, g, nodes[i]);
      checks := checks + more;
      assert nodes[..i + 1][..i] == nodes[..i];
      Assoc(before, NodeChecks(c, e, g, nodes[..i]), more);
      i := i + 1;
    }
    assert nodes[..i] == nodes;
    WalkSays(c, e, g, nodes);
    assert checks[|before|..] == NodeChecks(c, e, g, nodes);
  }

  /** The request binding: the legs found by search, at least one, all with the expected digest. */
  method BindRequest(g: Graph, output: NodeId, digest: bytes) returns (bound: bool)
    ensures bound <==> AnswersTheRequest(g, output, digest)
  {
    var legs := LegAncestors(g, output);
    bound := legs != [] && forall a | a in legs :: a.claim.requestDigest == digest;
    LegsDecideBinding(g, output, legs, digest);
  }

  /** `verify`. */
  method Verify(c: Crypto, r: HarnessReceipt, e: Expectation) returns (checks: seq<Check>)
    ensures checks == Checks(c, r, e)
    ensures AllPassed(checks) <==> Accepts(c, r, e)
    ensures Reports(c, r, e, checks)
  {
    checks := [Check(ManifestMatches, r.manifestId == e.manifest.id)];
    var g := Index(r.nodes);
    if r.outputNode in g {
      var out := g[r.outputNode];
      checks := checks + [Check(DeliveredMatchesOutput, out.outputDigest == e.servedOutputDigest)];
    } else {
      checks := checks + [Check(OutputNodeExists, false)];
    }
    checks := checks + [Check(BoundToPayment, r.paymentReference == Some(e.paymentReference))];
    assert checks == HeadChecks(r, e, g);
    if e.servedRequestDigest.Some? {
      var bound := BindRequest(g, r.outputNode, e.servedRequestDigest.value);
      checks := checks + [Check(AnswersRequest, bound)];
    }
    checks := WalkNodes(c, e, g, r.nodes, checks);
    ChecksMean(c, r, e, checks);
  }

  lemma LegsDecideBinding(g: Graph, output: NodeId, legs: seq<LegAttestation>, digest: bytes)
    requires ExactlyReachableLegs(g, output, legs)
    ensures (legs != [] && forall a | a in legs :: a.claim.requestDigest == digest)
            <==> AnswersTheRequest(g, output, digest)
  {
    var ids :| LegsOf(g, output, ids, legs);
    if legs != [] && forall a | a in legs :: a.claim.requestDigest == digest {
      BoundLegsAnswer(g, output, ids, legs, digest);
    }
    if AnswersTheRequest(g, output, digest) {
      AnsweringLegsBind(g, output, ids, legs, digest);
    }
  }

  lemma BoundLegsAnswer(g: Graph, output: NodeId, ids: seq<NodeId>, legs: seq<LegAttestation>, digest: bytes)
    requires LegsOf(g, output, ids, legs) && legs != [] && forall a | a in legs :: a.claim.requestDigest == digest
    ensures AnswersTheRequest(g, output, digest)
  {
    assert ReachesLeg(g, output, ids[0]);
    forall id | ReachesLeg(g, output, id) ensures g[id].proof.att.claim.requestDigest == digest {
      var i :| 0 <= i < |ids| && ids[i] == id;
      assert legs[i] in legs;
    }
  }

  lemma AnsweringLegsBind(g: Graph, output: NodeId, ids: seq<NodeId>, legs: seq<LegAttestation>, digest: bytes)
    requires LegsOf(g, output, ids, legs) && AnswersTheRequest(g, output, digest)
    ensures legs != [] && forall a | a in legs :: a.claim.requestDigest == digest
  {
    var id :| ReachesLeg(g, output, id);
    assert id in ids;
    forall a | a in legs ensures a.claim.requestDigest == digest {
      var i :| 0 <= i < |legs| && legs[i] == a;
      assert ReachesLeg(g, output, ids[i]);
    }
  }

  lemma InputChecksDecide(g: Graph, n: Node)
    ensures AllPassed(InputChecks(g, n.id, n.inputs)) <==> EdgesResolve(g, n)
  {
    var k := InputChecks(g, n.id, n.inputs);
    if AllPassed(k) {
      forall x | x in n.inputs ensures x in g {
        var j :| 0 <= j < |n.inputs| && n.inputs[j] == x;
        assert k[j] in k;
      }
    }
  }

  lemma {:induction false} NodeChecksDecide(c: Crypto, e: Expectation, g: Graph, nodes: seq<Node>)
    ensures AllPassed(NodeChecks(c, e, g, nodes)) <==> forall n | n in nodes :: NodeAccepted(c, e, g, n)
  {
    if nodes == [] {
      assert NodeChecks(c, e, g, nodes) == [];
    } else {
      var k := |nodes| - 1;
      var n := nodes[k];
      NodeChecksDecide(c, e, g, nodes[..k]);
      assert nodes == nodes[..k] + [n];
      var inputs, proof := InputChecks(g, n.id, n.inputs), ProofChecks(c, e, n);
      AllPassedAppend(NodeChecks(c, e, g, nodes[..k]), inputs + proof);
      AllPassedAppend(inputs, proof);
      InputChecksDecide(g, n);
      ProofChecksDecide(c, e, n);
      assert AllPassed(inputs + proof) <==> NodeAccepted(c, e, g, n);
    }
  }

  lemma AllPassedAppend(a: seq<Check>, b: seq<Check>)
    ensures AllPassed(a + b) <==> AllPassed(a) && AllPassed(b)
  {
    if AllPassed(a + b) {
      forall k | k in a ensures k.passed { assert k in a + b; }
      forall k | k in b ensures k.passed { assert k in a + b; }
    }
  }

  lemma ProofChecksDecide(c: Crypto, e: Expectation, n: Node)
    ensures AllPassed(ProofChecks(c, e, n)) <==>
            match n.proof
            case Leg(_) => LegAccepted(c, e, n)
            case Interior(_) => FindRecomputed(e.recomputed, n.id) == Some(n.outputDigest)
  {
    var k := ProofChecks(c, e, n);
    match n.proof
    case Leg(att) =>
      assert k[0] in k && k[1] in k && k[2] in k;
      if e.notaryPubkey.Some? {
        assert k[3] in k;
      }
    case Interior(_) =>
      assert k[0] in k;
  }

  /** The list of checks passes exactly when the receipt is acceptable. */
  lemma ChecksDecide(c: Crypto, r: HarnessReceipt, e: Expectation)
    ensures AllPassed(Checks(c, r, e)) <==> Accepts(c, r, e)
  {
    var g := Index(r.nodes);
    var head, req, rest := HeadChecks(r, e, g), RequestChecks(e, g, r.outputNode), NodeChecks(c, e, g, r.nodes);
    AllPassedAppend(head + req, rest);
    AllPassedAppend(head, req);
    NodeChecksDecide(c, e, g, r.nodes);
    assert head[0] in head && head[1] in head && head[2] in head;
    if e.servedRequestDigest.Some? {
      assert req[0] in req;
    }
  }

  /** `gate`. */
  method Gate(c: Crypto, r: HarnessReceipt, e: Expectation) returns (ok: bool)
    ensures ok <==> Accepts(c, r, e)
  {
    var checks := Verify(c, r, e);
    ok := forall k | k in checks :: k.passed;
  }

  // ---------------------------------------------------------------- laws of the gate

  /** `f` asks for no more than `e`: more hosts, fewer pins, and more recomputed digests after `e`'s. */
  predicate Relaxes(e: Expectation, f: Expectation) {
    && f.manifest.id == e.manifest.id && (forall h | h in e.manifest.hosts :: h in f.manifest.hosts)
    && (f.notaryPubkey == None || f.notaryPubkey == e.notaryPubkey)
    && (f.servedRequestDigest == None || f.servedRequestDigest == e.servedRequestDigest)
    && f.servedOutputDigest == e.servedOutputDigest && f.paymentReference == e.paymentReference
    && e.recomputed <= f.recomputed
  }

  lemma {:induction false} FindInPrefix(p: seq<(NodeId, bytes)>, q: seq<(NodeId, bytes)>, id: NodeId)
    requires p <= q && FindRecomputed(p, id).Some?
    ensures FindRecomputed(q, id) == FindRecomputed(p, id)
  {
    if p[0].0 != id {
      FindInPrefix(p[1..], q[1..], id);
    }
  }

  /** Asking for no more never turns an accepted receipt away. */
  lemma RelaxingKeepsAcceptance(c: Crypto, r: HarnessReceipt, e: Expectation, f: Expectation)
    requires Relaxes(e, f) && Accepts(c, r, e)
    ensures Accepts(c, r, f)
  {
    var g := Index(r.nodes);
    forall n | n in r.nodes ensures NodeAccepted(c, f, g, n) {
      assert NodeAccepted(c, e, g, n);
      if n.proof.Interior? {
        FindInPrefix(e.recomputed, f.recomputed, n.id);
      }
    }
  }

  function InputSet(n: Node): set<NodeId> {
    set x | x in n.inputs
  }

  /** The same node but for the order and repetition of its inputs. */
  predicate SameButInputOrder(a: Node, b: Node) {
    && a.id == b.id && a.outputDigest == b.outputDigest && a.proof == b.proof
    && InputSet(a) == InputSet(b)
  }

  predicate SameGraph(g: Graph, h: Graph) {
    g.Keys == h.Keys && forall id | id in g :: SameButInputOrder(g[id], h[id])
  }

  lemma SameReach(g: Graph, h: Graph, a: NodeId, b: NodeId)
    requires SameGraph(g, h) && Reaches(g, a, b)
    ensures Reaches(h, a, b)
  {
    var p :| IsPath(g, p) && p[0] == a && p[|p| - 1] == b;
    forall i | 0 <= i < |p| - 1 ensures Edge(h, p[i], p[i + 1]) {
      var x, y := p[i], p[i + 1];
      assert Edge(g, x, y) && SameButInputOrder(g[x], h[x]);
      assert y in InputSet(g[x]);
      assert y in InputSet(h[x]);
    }
    assert IsPath(h, p);
  }

  lemma SameReachesLeg(g: Graph, h: Graph, a: NodeId, id: NodeId)
    requires SameGraph(g, h) && ReachesLeg(g, a, id)
    ensures ReachesLeg(h, a, id) && h[id].proof == g[id].proof
  {
    SameReach(g, h, a, id);
    assert SameButInputOrder(g[id], h[id]);
  }

  lemma SameGraphSymmetric(g: Graph, h: Graph)
    requires SameGraph(g, h)
    ensures SameGraph(h, g)
  {
    forall id | id in h ensures SameButInputOrder(h[id], g[id]) {
      assert SameButInputOrder(g[id], h[id]);
    }
  }

  lemma SameAnswers(g: Graph, h: Graph, output: NodeId, digest: bytes)
    requires SameGraph(g, h) && AnswersTheRequest(g, output, digest)
    ensures AnswersTheRequest(h, output, digest)
  {
    var id :| ReachesLeg(g, output, id);
    SameReachesLeg(g, h, output, id);
    SameGraphSymmetric(g, h);
    forall x | ReachesLeg(h, output, x) ensures h[x].proof.att.claim.requestDigest == digest {
      SameReachesLeg(h, g, output, x);
    }
  }

  lemma SameNodeAccepted(c: Crypto, e: Expectation, g: Graph, h: Graph, a: Node, b: Node)
    requires SameGraph(g, h) && SameButInputOrder(a, b) && NodeAccepted(c, e, g, a)
    ensures NodeAccepted(c, e, h, b)
  {
    forall i | i in b.inputs ensures i in h {
      assert i in InputSet(b);
      assert i in InputSet(a);
    }
  }

  /** With unique ids, only the graph matters: not the order of the nodes, nor the order or
      repetition of any node's inputs. */
  lemma OrderIrrelevant(c: Crypto, r: HarnessReceipt, nodes: seq<Node>, e: Expectation)
    requires UniqueIds(r.nodes) && UniqueIds(nodes) && SameGraph(Index(r.nodes), Index(nodes))
    ensures Accepts(c, r, e) <==> Accepts(c, r.(nodes := nodes), e)
  {
    if Accepts(c, r, e) {
      OrderIrrelevantOneWay(c, r, nodes, e);
    }
    if Accepts(c, r.(nodes := nodes), e) {
      SameGraphSymmetric(Index(r.nodes), Index(nodes));
      OrderIrrelevantOneWay(c, r.(nodes := nodes), r.nodes, e);
      assert r.(nodes := nodes).(nodes := r.nodes) == r;
    }
  }

  lemma OrderIrrelevantOneWay(c: Crypto, r: HarnessReceipt, nodes: seq<Node>, e: Expectation)
    requires UniqueIds(r.nodes) && UniqueIds(nodes) && SameGraph(Index(r.nodes), Index(nodes))
    requires Accepts(c, r, e)
    ensures Accepts(c, r.(nodes := nodes), e)
  {
    var g, h := Index(r.nodes), Index(nodes);
    assert SameButInputOrder(g[r.outputNode], h[r.outputNode]);
    if e.servedRequestDigest.Some? {
      SameAnswers(g, h, r.outputNode, e.servedRequestDigest.value);
    }
    IndexUnique(r.nodes);
    IndexUnique(nodes);
    forall n | n in nodes ensures NodeAccepted(c, e, h, n) {
      assert SameButInputOrder(g[n.id], n);
      SameNodeAccepted(c, e, g, h, g[n.id], n);
    }
  }

  lemma PermutationKeepsUnique(p: seq<Node>, q: seq<Node>)
    requires UniqueIds(p) && multiset(p) == multiset(q)
    ensures UniqueIds(q)
  {
    forall i, j | 0 <= i < j < |q| ensures q[i].id != q[j].id {
      if q[i].id == q[j].id {
        assert q[i] in multiset(p) && q[j] in multiset(p);
        assert q[i] == q[j];
        UniqueCount(p, q[i]);
        TwiceCount(q, i, j);
        assert false;
      }
    }
  }

  /** A permutation of the nodes leaves the graph as it was. */
  lemma PermutationSameGraph(p: seq<Node>, q: seq<Node>)
    requires UniqueIds(p) && multiset(p) == multiset(q)
    ensures UniqueIds(q) && SameGraph(Index(p), Index(q))
  {
    PermutationKeepsUnique(p, q);
    IndexUnique(p);
    IndexUnique(q);
    forall id | id in Index(p) ensures id in Index(q) && SameButInputOrder(Index(p)[id], Index(q)[id]) {
      assert Index(p)[id] in multiset(q);
    }
    forall id | id in Index(q) ensures id in Index(p) {
      assert Index(q)[id] in multiset(p);
    }
  }

  lemma {:induction false} UniqueCount(p: seq<Node>, n: Node)
    requires UniqueIds(p)
    ensures multiset(p)[n] <= 1
  {
    if p != [] {
      var k := |p| - 1;
      assert p == p[..k] + [p[k]];
      UniqueCount(p[..k], n);
      if p[k] == n {
        assert n !in p[..k];
      }
    }
  }

  lemma TwiceCount(q: seq<Node>, i: nat, j: nat)
    requires i < j < |q| && q[i] == q[j]
    ensures multiset(q)[q[i]] >= 2
  {
    var a, b := q[..j], q[j..];
    assert q == a + b;
    assert a[i] in a && b[0] in b;
  }

  /** With unique ids, the gate's answer is the same for every permutation of the nodes. */
  lemma PermutationIrrelevant(c: Crypto, r: HarnessReceipt, nodes: seq<Node>, e: Expectation)
    requires UniqueIds(r.nodes) && multiset(r.nodes) == multiset(nodes)
    ensures Accepts(c, r, e) <==> Accepts(c, r.(nodes := nodes), e)
  {
    PermutationSameGraph(r.nodes, nodes);
    OrderIrrelevant(c, r, nodes, e);
  }

  /** Node by node the same but for the order and repetition of inputs. */
  predicate SameNodes(p: seq<Node>, q: seq<Node>) {
    |p| == |q| && forall i | 0 <= i < |p| :: SameButInputOrder(p[i], q[i])
  }

  lemma {:induction false} SameNodesSameGraph(p: seq<Node>, q: seq<Node>)
    requires SameNodes(p, q)
    ensures SameGraph(Index(p), Index(q))
  {
    if p != [] {
      var k := |p| - 1;
      SameNodesSameGraph(p[..k], q[..k]);
      assert SameButInputOrder(p[k], q[k]);
    }
  }

  lemma SameNodesAccepted(c: Crypto, r: HarnessReceipt, nodes: seq<Node>, e: Expectation)
    requires SameNodes(r.nodes, nodes) && Accepts(c, r, e)
    ensures Accepts(c, r.(nodes := nodes), e)
  {
    var g, h := Index(r.nodes), Index(nodes);
    SameNodesSameGraph(r.nodes, nodes);
    assert SameButInputOrder(g[r.outputNode], h[r.outputNode]);
    if e.servedRequestDigest.Some? {
      SameAnswers(g, h, r.outputNode, e.servedRequestDigest.value);
    }
    forall n | n in nodes ensures NodeAccepted(c, e, h, n) {
      var i :| 0 <= i < |nodes| && nodes[i] == n;
      assert SameButInputOrder(r.nodes[i], nodes[i]) && NodeAccepted(c, e, g, r.nodes[i]);
      SameNodeAccepted(c, e, g, h, r.nodes[i], n);
    }
  }

  /** The gate's answer is the same for every reordering or repetition of nodes' inputs, whether or
      not ids are unique. */
  lemma InputOrderIrrelevant(c: Crypto, r: HarnessReceipt, nodes: seq<Node>, e: Expectation)
    requires SameNodes(r.nodes, nodes)
    ensures Accepts(c, r, e) <==> Accepts(c, r.(nodes := nodes), e)
  {
    if Accepts(c, r, e) {
      SameNodesAccepted(c, r, nodes, e);
    }
    if Accepts(c, r.(nodes := nodes), e) {
      assert SameNodes(nodes, r.nodes) by {
        forall i | 0 <= i < |nodes| ensures SameButInputOrder(nodes[i], r.nodes[i]) {
          assert SameButInputOrder(r.nodes[i], nodes[i]);
        }
      }
      SameNodesAccepted(c, r.(nodes := nodes), r.nodes, e);
      assert r.(nodes := nodes).(nodes := r.nodes) == r;
    }
  }
}
