/** The proof-carrying receipt: a graph of nodes wired by `inputs`, each node justified by a notarised
    leg or by a public transform, with its wire form and the bytes a notary signs. */
module Core {
  import opened Bytes
  import opened Json
  import Base64Url

  type NodeId = bytes
  type u16 = n: nat | n < 65536

  datatype LegClaim = LegClaim(
    host: bytes,
    httpMethod: bytes,
    path: bytes,
    requestDigest: bytes,
    responseDigest: bytes,
    responseStatus: u16,
    timestamp: bytes)

  datatype LegProof = NotaryProof(pubkey: bytes, signature: bytes)

  datatype LegAttestation = LegAttestation(claim: LegClaim, proof: LegProof)

  datatype InteriorProof = Recompute(fnId: bytes)

  datatype NodeProof = Leg(att: LegAttestation) | Interior(proof: InteriorProof)

  datatype Node = Node(id: NodeId, inputs: seq<NodeId>, outputDigest: bytes, proof: NodeProof)

  datatype HarnessReceipt = HarnessReceipt(
    manifestId: bytes,
    nodes: seq<Node>,
    outputNode: NodeId,
    paymentReference: Option<bytes>)

  datatype Manifest = Manifest(id: bytes, hosts: seq<bytes>)

  datatype VerifyError = Malformed(what: string) | BadKey | BadSignature

  /** Node ids name at most one node each: documented of receipts, not checked by the verifier. */
  predicate UniqueIds(nodes: seq<Node>) {
    forall i, j | 0 <= i < j < |nodes| :: nodes[i].id != nodes[j].id
  }

  // ---------------------------------------------------------------- cryptography

  /** SHA-256 and Ed25519 verification, as arbitrary functions. */
  datatype Crypto = Crypto(
    sha256: bytes -> bytes,
    keyValid: bytes -> bool,
    verifies: (bytes, bytes, bytes) -> bool)
  {
    function Sha256Hex(b: bytes): bytes {
      HexEncode(sha256(b))
    }
  }

  /** No two different members of `values` share a digest. */
  ghost predicate CollisionFree(c: Crypto, values: set<bytes>) {
    forall a, b | a in values && b in values && c.sha256(a) == c.sha256(b) :: a == b
  }

  lemma SameDigestSameBytes(c: Crypto, values: set<bytes>, a: bytes, b: bytes)
    requires CollisionFree(c, values) && a in values && b in values
    requires c.Sha256Hex(a) == c.Sha256Hex(b)
    ensures a == b
  {
    HexInjective(c.sha256(a), c.sha256(b));
  }

  // ---------------------------------------------------------------- reading object fields

  datatype Found = Missing | Once(value: Json) | Repeated

  /** A field of a derived struct: unknown members are skipped, a repeated one is an error. */
  function Lookup(members: seq<Member>, key: bytes): Found {
    if members == [] then Missing
    else
      var r := Lookup(members[1..], key);
      if members[0].key != key then r
      else if r.Missing? then Once(members[0].value)
      else Repeated
  }

  /** Field `i` of a derived struct with `n` fields, which may come as an object or as an array in order. */
  function Field(j: Json, key: bytes, i: nat, n: nat): Found
    requires i < n
  {
    match j
    case Obj(members) => Lookup(members, key)
    case Arr(items) => if |items| == n then Once(items[i]) else Missing
    case _ => Missing
  }

  function Text(f: Found): Option<bytes> {
    if f.Once? && f.value.Str? then Some(f.value.s) else None
  }

  predicate DistinctKeys(members: seq<Member>) {
    forall i, j | 0 <= i < j < |members| :: members[i].key != members[j].key
  }

  lemma {:induction false} LookupMissing(members: seq<Member>, key: bytes)
    requires forall j | 0 <= j < |members| :: members[j].key != key
    ensures Lookup(members, key) == Missing
  {
    if members != [] {
      LookupMissing(members[1..], key);
    }
  }

  lemma {:induction false} LookupAt(members: seq<Member>, i: nat)
    requires i < |members| && DistinctKeys(members)
    ensures Lookup(members, members[i].key) == Once(members[i].value)
  {
    if i == 0 {
      LookupMissing(members[1..], members[0].key);
    } else {
      LookupAt(members[1..], i - 1);
    }
  }

  // ---------------------------------------------------------------- claims

  const HOST := Ascii("host")
  const METHOD := Ascii("method")
  const PATH := Ascii("path")
  const REQUEST_DIGEST := Ascii("request_digest")
  const RESPONSE_DIGEST := Ascii("response_digest")
  const RESPONSE_STATUS := Ascii("response_status")
  const TIMESTAMP := Ascii("timestamp")

  function ClaimMembers(c: LegClaim): seq<Member> {
    [Member(HOST, Str(c.host)), Member(METHOD, Str(c.httpMethod)), Member(PATH, Str(c.path)),
     Member(REQUEST_DIGEST, Str(c.requestDigest)), Member(RESPONSE_DIGEST, Str(c.responseDigest)),
     Member(RESPONSE_STATUS, Num(c.responseStatus)), Member(TIMESTAMP, Str(c.timestamp))]
  }

  function ClaimToJson(c: LegClaim): Json {
    Obj(ClaimMembers(c))
  }

  function ClaimFromJson(j: Json): Option<LegClaim> {
    var host, httpMethod := Text(Field(j, HOST, 0, 7)), Text(Field(j, METHOD, 1, 7));
    var path, req := Text(Field(j, PATH, 2, 7)), Text(Field(j, REQUEST_DIGEST, 3, 7));
    var resp, status := Text(Field(j, RESPONSE_DIGEST, 4, 7)), Field(j, RESPONSE_STATUS, 5, 7);
    var time := Text(Field(j, TIMESTAMP, 6, 7));
    if host.None? || httpMethod.None? || path.None? || req.None? || resp.None? || time.None? then None
    else if !status.Once? || !status.value.Num? || status.value.n >= 65536 then None
    else Some(LegClaim(host.value, httpMethod.value, path.value, req.value, resp.value, status.value.n, time.value))
  }

  lemma ClaimKeysDistinct(c: LegClaim)
    ensures DistinctKeys(ClaimMembers(c))
  {
    assert |HOST| == 4 && |METHOD| == 6 && |PATH| == 4 && |REQUEST_DIGEST| == 14;
    assert |RESPONSE_DIGEST| == 15 && |RESPONSE_STATUS| == 15 && |TIMESTAMP| == 9;
    assert HOST[0] != PATH[0] && RESPONSE_DIGEST[9] != RESPONSE_STATUS[9];
  }

  lemma ClaimRoundTrip(c: LegClaim)
    ensures ClaimFromJson(ClaimToJson(c)) == Some(c)
  {
    var m := ClaimMembers(c);
    ClaimKeysDistinct(c);
    LookupAt(m, 0);
    LookupAt(m, 1);
    LookupAt(m, 2);
    LookupAt(m, 3);
    LookupAt(m, 4);
    LookupAt(m, 5);
    LookupAt(m, 6);
  }

  const DOMAIN := Ascii("provably/leg-attestation/v1")

  /** The bytes a notary signs: the domain, a zero byte, then the claim's JSON text. */
  function SigningMessage(c: LegClaim): bytes {
    DOMAIN + ([0] + Print(ClaimToJson(c)))
  }

  /** The signed bytes determine every field of the claim. */
  lemma SigningMessageInjective(a: LegClaim, b: LegClaim)
    requires SigningMessage(a) == SigningMessage(b)
    ensures a == b
  {
    var m := SigningMessage(a);
    assert m[|DOMAIN| + 1..] == Print(ClaimToJson(a));
    assert m[|DOMAIN| + 1..] == Print(ClaimToJson(b));
    RoundTrip(ClaimToJson(a));
    RoundTrip(ClaimToJson(b));
    ClaimRoundTrip(a);
    ClaimRoundTrip(b);
  }

  // ---------------------------------------------------------------- attestations

  const KIND := Ascii("kind")
  const NOTARY := Ascii("notary")
  const PUBKEY := Ascii("pubkey")
  const SIGNATURE := Ascii("signature")
  const CLAIM := Ascii("claim")
  const PROOF := Ascii("proof")

  function ProofMembers(p: LegProof): seq<Member> {
    [Member(KIND, Str(NOTARY)), Member(PUBKEY, Str(p.pubkey)), Member(SIGNATURE, Str(p.signature))]
  }

  function ProofFromJson(j: Json): Option<LegProof> {
    var kind, pubkey := Text(Field(j, KIND, 0, 3)), Text(Field(j, PUBKEY, 1, 3));
    var sig := Text(Field(j, SIGNATURE, 2, 3));
    if kind != Some(NOTARY) || pubkey.None? || sig.None? then None
    else Some(NotaryProof(pubkey.value, sig.value))
  }

  lemma ProofRoundTrip(p: LegProof)
    ensures ProofFromJson(Obj(ProofMembers(p))) == Some(p)
  {
    var m := ProofMembers(p);
    assert |KIND| == 4 && |PUBKEY| == 6 && |SIGNATURE| == 9;
    LookupAt(m, 0);
    LookupAt(m, 1);
    LookupAt(m, 2);
  }

  function AttestationMembers(a: LegAttestation): seq<Member> {
    [Member(CLAIM, ClaimToJson(a.claim)), Member(PROOF, Obj(ProofMembers(a.proof)))]
  }

  function AttestationToJson(a: LegAttestation): Json {
    Obj(AttestationMembers(a))
  }

  function AttestationFromJson(j: Json): Option<LegAttestation> {
    var c, p := Field(j, CLAIM, 0, 2), Field(j, PROOF, 1, 2);
    if !c.Once? || !p.Once? then None
    else
      var claim, proof := ClaimFromJson(c.value), ProofFromJson(p.value);
      if claim.None? || proof.None? then None else Some(LegAttestation(claim.value, proof.value))
  }

  lemma AttestationRoundTrip(a: LegAttestation)
    ensures AttestationFromJson(AttestationToJson(a)) == Some(a)
  {
    var m := AttestationMembers(a);
    assert CLAIM[0] != PROOF[0];
    LookupAt(m, 0);
    LookupAt(m, 1);
    ClaimRoundTrip(a.claim);
    ProofRoundTrip(a.proof);
  }

  /** The notary's reply to the prover: JSON until the end of the stream. */
  lemma AttestationWireRoundTrip(a: LegAttestation)
    ensures var j := FromSlice(Print(AttestationToJson(a)));
            j.Some? && AttestationFromJson(j.value) == Some(a)
  {
    RoundTrip(AttestationToJson(a));
    AttestationRoundTrip(a);
  }

  function DecodeFixed(s: bytes, n: nat): Result<bytes, VerifyError> {
    var b := HexDecode(s);
    if b.None? then Err(Malformed("hex"))
    else if |b.value| != n then Err(Malformed("length"))
    else Ok(b.value)
  }

  /** `LegAttestation::verify_proof`. */
  function VerifyProof(c: Crypto, att: LegAttestation): Result<(), VerifyError> {
    var pk := DecodeFixed(att.proof.pubkey, 32);
    if pk.Err? then Err(pk.error)
    else if !c.keyValid(pk.value) then Err(BadKey)
    else
      var sig := DecodeFixed(att.proof.signature, 64);
      if sig.Err? then Err(sig.error)
      else if c.verifies(pk.value, SigningMessage(att.claim), sig.value) then Ok(())
      else Err(BadSignature)
  }

  /** The text spells `n` bytes in hexadecimal. */
  ghost predicate SpellsBytes(s: bytes, n: nat) {
    exists b :: |b| == n && HexSpells(s, b)
  }

  /** The text spells bytes in hexadecimal, however many. */
  ghost predicate SpellsAny(s: bytes) {
    exists b :: HexSpells(s, b)
  }

  lemma DecodeFixedIs(s: bytes, n: nat, b: bytes)
    ensures DecodeFixed(s, n) == Ok(b) <==> |b| == n && HexSpells(s, b)
    ensures !SpellsAny(s) ==> DecodeFixed(s, n) == Err(Malformed("hex"))
    ensures SpellsAny(s) && !SpellsBytes(s, n) ==> DecodeFixed(s, n) == Err(Malformed("length"))
  {
    HexDecodeIff(s, b);
    if HexDecode(s).Some? {
      HexDecodeIff(s, HexDecode(s).value);
    }
    if a :| HexSpells(s, a) {
      HexDecodeIff(s, a);
    }
  }

  /** Verification, answer by answer: the key spells 32 bytes, a valid key, and then the signature spells 64 bytes,
      which verify over the signed bytes of the claim. */
  lemma VerifyProofIs(c: Crypto, att: LegAttestation, pk: bytes, b: bytes)
    ensures var key, sig, result := att.proof.pubkey, att.proof.signature, VerifyProof(c, att);
            && (!SpellsAny(key) ==> result == Err(Malformed("hex")))
            && (SpellsAny(key) && !SpellsBytes(key, 32) ==> result == Err(Malformed("length")))
            && (HexSpells(key, pk) && |pk| == 32 ==>
                && (!c.keyValid(pk) ==> result == Err(BadKey))
                && (c.keyValid(pk) && !SpellsAny(sig) ==> result == Err(Malformed("hex")))
                && (c.keyValid(pk) && SpellsAny(sig) && !SpellsBytes(sig, 64) ==> result == Err(Malformed("length")))
                && (c.keyValid(pk) && HexSpells(sig, b) && |b| == 64 ==>
                    result == if c.verifies(pk, SigningMessage(att.claim), b) then Ok(()) else Err(BadSignature)))
  {
    DecodeFixedIs(att.proof.pubkey, 32, pk);
    DecodeFixedIs(att.proof.signature, 64, b);
  }

  /** A notary's signing identity. */
  datatype Notary = Notary(publicKey: bytes, sign: bytes -> bytes) {
    function PublicKeyHex(): bytes {
      HexEncode(publicKey)
    }

    function Attest(claim: LegClaim): LegAttestation {
      LegAttestation(claim, NotaryProof(PublicKeyHex(), HexEncode(sign(SigningMessage(claim)))))
    }
  }

  /** Ed25519 as an ideal scheme: under this notary's key exactly the claims it has signed verify,
      and only with the signature it gave.  Nothing is said of other keys. */
  ghost predicate Ideal(c: Crypto, n: Notary, claims: set<LegClaim>) {
    && |n.publicKey| == 32
    && c.keyValid(n.publicKey)
    && (forall m :: |n.sign(m)| == 64)
    && (forall m, sig :: c.verifies(n.publicKey, m, sig) <==>
                         sig == n.sign(m) && exists k | k in claims :: SigningMessage(k) == m)
  }

  /** Under the notary's key, an attestation verifies exactly when its claim, in all seven fields,
      is one that the notary signed, with the signature it gave. */
  lemma VerifiesIffSigned(c: Crypto, n: Notary, claims: set<LegClaim>, att: LegAttestation)
    requires Ideal(c, n, claims)
    requires HexDecode(att.proof.pubkey) == Some(n.publicKey)
    ensures VerifyProof(c, att).Ok? <==>
            att.claim in claims && HexDecode(att.proof.signature) == Some(n.sign(SigningMessage(att.claim)))
  {
    var m := SigningMessage(att.claim);
    forall k | k in claims && SigningMessage(k) == m ensures k == att.claim {
      SigningMessageInjective(k, att.claim);
    }
  }

  /** What a notary attests verifies, and the attestation carries its key. */
  lemma AttestVerifies(c: Crypto, n: Notary, claims: set<LegClaim>, claim: LegClaim)
    requires Ideal(c, n, claims) && claim in claims
    ensures VerifyProof(c, n.Attest(claim)) == Ok(())
    ensures HexDecode(n.Attest(claim).proof.pubkey) == Some(n.publicKey)
  {
    HexRoundTrip(n.publicKey);
    HexRoundTrip(n.sign(SigningMessage(claim)));
    VerifiesIffSigned(c, n, claims, n.Attest(claim));
  }

  /** Changing any field of an attested claim, to a claim never signed, breaks the signature. */
  lemma TamperedClaimFails(c: Crypto, n: Notary, claims: set<LegClaim>, claim: LegClaim, tampered: LegClaim)
    requires Ideal(c, n, claims) && claim in claims && tampered !in claims
    ensures VerifyProof(c, n.Attest(claim).(claim := tampered)) == Err(BadSignature)
  {
    HexRoundTrip(n.publicKey);
    HexRoundTrip(n.sign(SigningMessage(claim)));
    VerifiesIffSigned(c, n, claims, n.Attest(claim).(claim := tampered));
  }

  // ---------------------------------------------------------------- receipts

  const LEG := Ascii("Leg")
  const INTERIOR := Ascii("Interior")
  const RECOMPUTE := Ascii("Recompute")
  const FN_ID := Ascii("fn_id")
  const ID := Ascii("id")
  const INPUTS := Ascii("inputs")
  const OUTPUT_DIGEST := Ascii("output_digest")
  const MANIFEST_ID := Ascii("manifest_id")
  const NODES := Ascii("nodes")
  const OUTPUT_NODE := Ascii("output_node")
  const PAYMENT_REFERENCE := Ascii("payment_reference")

  function NodeProofToJson(p: NodeProof): Json {
    match p
    case Leg(att) => Obj([Member(LEG, AttestationToJson(att))])
    case Interior(Recompute(fnId)) =>
      Obj([Member(INTERIOR, Obj([Member(RECOMPUTE, Obj([Member(FN_ID, Str(fnId))]))]))])
  }

  function InteriorFromJson(j: Json): Option<InteriorProof> {
    if !j.Obj? || |j.members| != 1 || j.members[0].key != RECOMPUTE then None
    else
      var fnId := Text(Field(j.members[0].value, FN_ID, 0, 1));
      if fnId.None? then None else Some(Recompute(fnId.value))
  }

  function NodeProofFromJson(j: Json): Option<NodeProof> {
    if !j.Obj? || |j.members| != 1 then None
    else if j.members[0].key == LEG then
      var att := AttestationFromJson(j.members[0].value);
      if att.None? then None else Some(Leg(att.value))
    else if j.members[0].key == INTERIOR then
      var p := InteriorFromJson(j.members[0].value);
      if p.None? then None else Some(Interior(p.value))
    else None
  }

  lemma NodeProofRoundTrip(p: NodeProof)
    ensures NodeProofFromJson(NodeProofToJson(p)) == Some(p)
  {
    assert LEG[0] != INTERIOR[0];
    match p
    case Leg(att) => AttestationRoundTrip(att);
    case Interior(Recompute(fnId)) => LookupAt([Member(FN_ID, Str(fnId))], 0);
  }

  function TextsToJson(ids: seq<bytes>): seq<Json> {
    if ids == [] then [] else [Str(ids[0])] + TextsToJson(ids[1..])
  }

  function TextsFromJson(items: seq<Json>): Option<seq<bytes>> {
    if items == [] then Some([])
    else
      var t := TextsFromJson(items[1..]);
      if !items[0].Str? || t.None? then None else Some([items[0].s] + t.value)
  }

  lemma {:induction false} TextsRoundTrip(ids: seq<bytes>)
    ensures TextsFromJson(TextsToJson(ids)) == Some(ids)
  {
    if ids != [] {
      TextsRoundTrip(ids[1..]);
      assert ids == [ids[0]] + ids[1..];
      assert TextsToJson(ids)[1..] == TextsToJson(ids[1..]);
    }
  }

  function NodeMembers(n: Node): seq<Member> {
    [Member(ID, Str(n.id)), Member(INPUTS, Arr(TextsToJson(n.inputs))),
     Member(OUTPUT_DIGEST, Str(n.outputDigest)), Member(PROOF, NodeProofToJson(n.proof))]
  }

  function NodeFromJson(j: Json): Option<Node> {
    var id, i := Text(Field(j, ID, 0, 4)), Field(j, INPUTS, 1, 4);
    var digest, p := Text(Field(j, OUTPUT_DIGEST, 2, 4)), Field(j, PROOF, 3, 4);
    if id.None? || digest.None? || !i.Once? || !i.value.Arr? || !p.Once? then None
    else
      var inputs, proof := TextsFromJson(i.value.items), NodeProofFromJson(p.value);
      if inputs.None? || proof.None? then None
      else Some(Node(id.value, inputs.value, digest.value, proof.value))
  }

  lemma NodeRoundTrip(n: Node)
    ensures NodeFromJson(Obj(NodeMembers(n))) == Some(n)
  {
    var m := NodeMembers(n);
    assert |ID| == 2 && |INPUTS| == 6 && |OUTPUT_DIGEST| == 13 && |PROOF| == 5;
    LookupAt(m, 0);
    LookupAt(m, 1);
    LookupAt(m, 2);
    LookupAt(m, 3);
    TextsRoundTrip(n.inputs);
    NodeProofRoundTrip(n.proof);
  }

  function NodesToJson(nodes: seq<Node>): seq<Json> {
    if nodes == [] then [] else [Obj(NodeMembers(nodes[0]))] + NodesToJson(nodes[1..])
  }

  function NodesFromJson(items: seq<Json>): Option<seq<Node>> {
    if items == [] then Some([])
    else
      var n, t := NodeFromJson(items[0]), NodesFromJson(items[1..]);
      if n.None? || t.None? then None else Some([n.value] + t.value)
  }

  lemma {:induction false} NodesRoundTrip(nodes: seq<Node>)
    ensures NodesFromJson(NodesToJson(nodes)) == Some(nodes)
  {
    if nodes != [] {
      NodeRoundTrip(nodes[0]);
      NodesRoundTrip(nodes[1..]);
      assert nodes == [nodes[0]] + nodes[1..];
      assert NodesToJson(nodes)[1..] == NodesToJson(nodes[1..]);
    }
  }

  /** An absent payment reference is left out of the object, not written as `null`. */
  function ReceiptMembers(r: HarnessReceipt): seq<Member> {
    [Member(MANIFEST_ID, Str(r.manifestId)), Member(NODES, Arr(NodesToJson(r.nodes))),
     Member(OUTPUT_NODE, Str(r.outputNode))]
    + if r.paymentReference.None? then [] else [Member(PAYMENT_REFERENCE, Str(r.paymentReference.value))]
  }

  function ReceiptFromFields(manifest: Option<bytes>, nodes: Found, output: Option<bytes>, reference: Found)
    : Option<HarnessReceipt>
  {
    if manifest.None? || !nodes.Once? || !nodes.value.Arr? || output.None? then None
    else
      var n := NodesFromJson(nodes.value.items);
      if n.None? then None
      else if reference.Missing? || reference == Once(Null) then
        Some(HarnessReceipt(manifest.value, n.value, output.value, None))
      else if reference.Once? && reference.value.Str? then
        Some(HarnessReceipt(manifest.value, n.value, output.value, Some(reference.value.s)))
      else None
  }

  function ReceiptFromJson(j: Json): Option<HarnessReceipt> {
    ReceiptFromFields(Text(Field(j, MANIFEST_ID, 0, 4)), Field(j, NODES, 1, 4), Text(Field(j, OUTPUT_NODE, 2, 4)),
                      Field(j, PAYMENT_REFERENCE, 3, 4))
  }

  lemma ReceiptFields(r: HarnessReceipt)
    ensures var m := ReceiptMembers(r);
            && Lookup(m, MANIFEST_ID) == Once(Str(r.manifestId))
            && Lookup(m, NODES) == Once(Arr(NodesToJson(r.nodes)))
            && Lookup(m, OUTPUT_NODE) == Once(Str(r.outputNode))
            && Lookup(m, PAYMENT_REFERENCE) ==
               if r.paymentReference.None? then Missing else Once(Str(r.paymentReference.value))
  {
    var m := ReceiptMembers(r);
    assert |MANIFEST_ID| == 11 && |NODES| == 5 && |OUTPUT_NODE| == 11 && |PAYMENT_REFERENCE| == 17;
    assert MANIFEST_ID[0] != OUTPUT_NODE[0];
    LookupAt(m, 0);
    LookupAt(m, 1);
    LookupAt(m, 2);
    if r.paymentReference.None? {
      LookupMissing(m, PAYMENT_REFERENCE);
    } else {
      LookupAt(m, 3);
    }
  }

  lemma FieldsRead(r: HarnessReceipt, reference: Found)
    requires if r.paymentReference.None? then reference == Missing || reference == Once(Null)
             else reference == Once(Str(r.paymentReference.value))
    ensures ReceiptFromFields(Some(r.manifestId), Once(Arr(NodesToJson(r.nodes))), Some(r.outputNode), reference)
            == Some(r)
  {
    NodesRoundTrip(r.nodes);
  }

  lemma ReceiptRoundTrip(r: HarnessReceipt)
    ensures ReceiptFromJson(Obj(ReceiptMembers(r))) == Some(r)
  {
    ReceiptFields(r);
    FieldsRead(r, if r.paymentReference.None? then Missing else Once(Str(r.paymentReference.value)));
  }

  /** The same receipt, its fields in an array, reads the same. */
  lemma PositionalReceiptReads(r: HarnessReceipt)
    ensures var reference := if r.paymentReference.None? then Null else Str(r.paymentReference.value);
            ReceiptFromJson(Arr([Str(r.manifestId), Arr(NodesToJson(r.nodes)), Str(r.outputNode), reference]))
            == Some(r)
  {
    FieldsRead(r, Once(if r.paymentReference.None? then Null else Str(r.paymentReference.value)));
  }

  /** `HarnessReceipt::to_header`. */
  function ToHeader(r: HarnessReceipt): bytes {
    Base64Url.Encode(Print(Obj(ReceiptMembers(r))))
  }

  /** `HarnessReceipt::from_header`. */
  function FromHeader(value: bytes): Result<HarnessReceipt, VerifyError> {
    var text := Base64Url.Decode(Trim(value));
    if text.None? then Err(Malformed("base64"))
    else
      var j := FromSlice(text.value);
      if j.None? then Err(Malformed("json"))
      else
        var r := ReceiptFromJson(j.value);
        if r.None? then Err(Malformed("json")) else Ok(r.value)
  }

  lemma TrimHeader(before: bytes, b: bytes, after: bytes)
    requires IsWhitespace(before) && IsWhitespace(after)
    ensures Trim(before + (Base64Url.Encode(b) + after)) == Base64Url.Encode(b)
  {
    Base64Url.EncodeIsGraphic(b);
    assert SpacePrefix(Base64Url.Encode(b)) == 0 && SpaceSuffix(Base64Url.Encode(b)) == 0;
    TrimSurrounded(before, Base64Url.Encode(b), after);
  }

  /** A receipt header reads back as the receipt it was made from: any number of nodes, any strings,
      with or without a payment reference, and whatever whitespace surrounds the header. */
  lemma HeaderRoundTrip(r: HarnessReceipt, before: bytes, after: bytes)
    requires IsWhitespace(before) && IsWhitespace(after)
    ensures FromHeader(before + (ToHeader(r) + after)) == Ok(r)
  {
    var j := Obj(ReceiptMembers(r));
    TrimHeader(before, Print(j), after);
    Base64Url.DecodeEncode(Print(j));
    RoundTrip(j);
    ReceiptRoundTrip(r);
  }

  /** Which headers are read, and how the others fail: the trimmed text is the base64url form of a JSON text, and
      that is a receipt. */
  lemma FromHeaderIs(value: bytes)
    ensures FromHeader(value) == Err(Malformed("base64")) <==> forall text :: Trim(value) != Base64Url.Encode(text)
    ensures FromHeader(value).Err? ==> FromHeader(value).error in {Malformed("base64"), Malformed("json")}
    ensures forall r :: FromHeader(value) == Ok(r) <==>
                        exists text, j :: && Trim(value) == Base64Url.Encode(text) && FromSlice(text) == Some(j)
                                          && ReceiptFromJson(j) == Some(r)
  {
    var t := Trim(value);
    forall text ensures Base64Url.Decode(t) == Some(text) <==> t == Base64Url.Encode(text) {
      Base64Url.DecodeIffEncoded(t, text);
    }
    assert "base64" != "json" by { assert |"base64"| != |"json"|; }
    if Base64Url.Decode(t).Some? {
      assert t == Base64Url.Encode(Base64Url.Decode(t).value);
    }
  }
}
