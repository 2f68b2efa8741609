/** The texts that cross the wire, name by name: what is printed for each kind of value, and which JSON objects are
    read as it.  Names and punctuation are spelled out here, apart from the constants that printer and reader share. */
module WireText {
  import opened Bytes
  import opened Json
  import opened Core
  import Base64Url

  // ---------------------------------------------------------------- printing members

  predicate Plain(s: bytes) {
    forall b | b in s :: 32 <= b < 127 && b != QUOTE && b != BACKSLASH
  }

  lemma PlainEscapes(s: bytes)
    requires Plain(s)
    ensures EscapeAll(s) == s
  {
    assert forall i | 0 <= i < |s| :: s[i] in s;
    UnescapedIs(s);
  }

  /** What remains to be printed of an object from member `i` on, with the punctuation before it. */
  function Rest(members: seq<Member>, i: nat): bytes
    requires i <= |members|
  {
    if i == |members| then [RBRACE]
    else [if i == 0 then LBRACE else COMMA] + (PrintMembers(members[i..]) + [RBRACE])
  }

  lemma MembersSplit(m: Member, rest: seq<Member>)
    ensures PrintMembers([m] + rest) + [RBRACE] ==
            PrintString(m.key) + ([COLON] + (Print(m.value)
            + if rest == [] then [RBRACE] else [COMMA] + (PrintMembers(rest) + [RBRACE])))
  {
    var k, v := PrintString(m.key), Print(m.value);
    assert ([m] + rest)[1..] == rest;
    if rest == [] {
      Assoc(k, [COLON] + v, [RBRACE]);
      Assoc([COLON], v, [RBRACE]);
    } else {
      var more := PrintMembers(rest);
      Assoc(k + ([COLON] + v), [COMMA] + more, [RBRACE]);
      Assoc([COMMA], more, [RBRACE]);
      Assoc(k, [COLON] + v, [COMMA] + (more + [RBRACE]));
      Assoc([COLON], v, [COMMA] + (more + [RBRACE]));
    }
  }

  lemma KeySplit(sep: byte, key: bytes, tail: bytes)
    requires Plain(key)
    ensures [sep] + (PrintString(key) + ([COLON] + tail)) == ([sep, QUOTE] + (key + [QUOTE, COLON])) + tail
  {
    PlainEscapes(key);
    Assoc([QUOTE], key + [QUOTE], [COLON] + tail);
    Assoc(key, [QUOTE], [COLON] + tail);
    Assoc([sep], [QUOTE], key + ([QUOTE] + ([COLON] + tail)));
    assert [sep] + [QUOTE] == [sep, QUOTE];
    assert [QUOTE] + ([COLON] + tail) == [QUOTE, COLON] + tail;
    Assoc(key, [QUOTE, COLON], tail);
    Assoc([sep, QUOTE], key + [QUOTE, COLON], tail);
  }

  /** `text` is a key as it stands before its value: punctuation, quotes, a colon. */
  predicate Named(sep: byte, key: bytes, text: bytes) {
    Plain(key) && text == [sep, QUOTE] + (key + [QUOTE, COLON])
  }

  predicate IsPlain(c: char) {
    ' ' <= c <= '~' && c != '"' && c != '\\'
  }

  lemma NameIs(sep: char, name: string, text: string)
    requires sep as int < 256 && text == [sep] + "\"" + name + "\":" && forall i | 0 <= i < |name| :: IsPlain(name[i])
    ensures Named(sep as int, Ascii(name), Ascii(text))
  {
  }

  /** One member more in front, whose text and the text after it are known. */
  lemma MemberPrints(members: seq<Member>, i: nat, text: bytes, value: bytes, tail: bytes)
    requires i < |members| && Named(if i == 0 then LBRACE else COMMA, members[i].key, text)
    requires Print(members[i].value) == value && Rest(members, i + 1) == tail
    ensures Rest(members, i) == text + (value + tail)
  {
    var m, rest := members[i], members[i + 1..];
    assert members[i..] == [m] + rest;
    MembersSplit(m, rest);
    KeySplit(if i == 0 then LBRACE else COMMA, m.key, value + tail);
  }

  /** Objects of two, three and four members, their names and values known. */
  lemma TwoPrint(m: seq<Member>, k: seq<bytes>, v: seq<bytes>)
    requires |m| == |k| == |v| == 2 && Named(LBRACE, m[0].key, k[0]) && Named(COMMA, m[1].key, k[1])
    requires Print(m[0].value) == v[0] && Print(m[1].value) == v[1]
    ensures Print(Obj(m)) == k[0] + (v[0] + (k[1] + (v[1] + Ascii("}"))))
  {
    ObjectIs(m);
    MemberPrints(m, 1, k[1], v[1], Ascii("}"));
    MemberPrints(m, 0, k[0], v[0], k[1] + (v[1] + Ascii("}")));
  }

  lemma ThreePrint(m: seq<Member>, k: seq<bytes>, v: seq<bytes>)
    requires |m| == |k| == |v| == 3 && Named(LBRACE, m[0].key, k[0])
    requires Named(COMMA, m[1].key, k[1]) && Named(COMMA, m[2].key, k[2])
    requires Print(m[0].value) == v[0] && Print(m[1].value) == v[1] && Print(m[2].value) == v[2]
    ensures Print(Obj(m)) == k[0] + (v[0] + (k[1] + (v[1] + (k[2] + (v[2] + Ascii("}"))))))
  {
    var t2 := k[2] + (v[2] + Ascii("}"));
    ObjectIs(m);
    MemberPrints(m, 2, k[2], v[2], Ascii("}"));
    MemberPrints(m, 1, k[1], v[1], t2);
    MemberPrints(m, 0, k[0], v[0], k[1] + (v[1] + t2));
  }

  lemma FourPrint(m: seq<Member>, k: seq<bytes>, v: seq<bytes>)
    requires |m| == |k| == |v| == 4 && Named(LBRACE, m[0].key, k[0]) && Named(COMMA, m[1].key, k[1])
    requires Named(COMMA, m[2].key, k[2]) && Named(COMMA, m[3].key, k[3])
    requires Print(m[0].value) == v[0] && Print(m[1].value) == v[1]
    requires Print(m[2].value) == v[2] && Print(m[3].value) == v[3]
    ensures Print(Obj(m)) == k[0] + (v[0] + (k[1] + (v[1] + (k[2] + (v[2] + (k[3] + (v[3] + Ascii("}"))))))))
  {
    var t3 := k[3] + (v[3] + Ascii("}"));
    var t2 := k[2] + (v[2] + t3);
    ObjectIs(m);
    MemberPrints(m, 3, k[3], v[3], Ascii("}"));
    MemberPrints(m, 2, k[2], v[2], t3);
    MemberPrints(m, 1, k[1], v[1], t2);
    MemberPrints(m, 0, k[0], v[0], k[1] + (v[1] + t2));
  }

  lemma ObjectIs(members: seq<Member>)
    requires members != []
    ensures Print(Obj(members)) == Rest(members, 0) && Rest(members, |members|) == Ascii("}")
  {
    assert members[0..] == members;
  }

  // ---------------------------------------------------------------- claims

  function ClaimText(c: LegClaim): bytes {
    Ascii("{\"host\":") + (PrintString(c.host) +
    (Ascii(",\"method\":") + (PrintString(c.httpMethod) +
    (Ascii(",\"path\":") + (PrintString(c.path) +
    (Ascii(",\"request_digest\":") + (PrintString(c.requestDigest) +
    (Ascii(",\"response_digest\":") + (PrintString(c.responseDigest) +
    (Ascii(",\"response_status\":") + (PrintNat(c.responseStatus) +
    (Ascii(",\"timestamp\":") + (PrintString(c.timestamp) +
    Ascii("}"))))))))))))))
  }

  lemma ClaimNames(m: seq<Member>)
    requires |m| == 7 && m[0].key == HOST && m[1].key == METHOD && m[2].key == PATH && m[3].key == REQUEST_DIGEST
    ensures Named(LBRACE, m[0].key, Ascii("{\"host\":")) && Named(COMMA, m[1].key, Ascii(",\"method\":"))
    ensures Named(COMMA, m[2].key, Ascii(",\"path\":")) && Named(COMMA, m[3].key, Ascii(",\"request_digest\":"))
  {
    NameIs('{', "host", "{\"host\":");
    NameIs(',', "method", ",\"method\":");
    NameIs(',', "path", ",\"path\":");
    NameIs(',', "request_digest", ",\"request_digest\":");
  }

  lemma MoreClaimNames(m: seq<Member>)
    requires |m| == 7 && m[4].key == RESPONSE_DIGEST && m[5].key == RESPONSE_STATUS && m[6].key == TIMESTAMP
    ensures Named(COMMA, m[4].key, Ascii(",\"response_digest\":"))
    ensures Named(COMMA, m[5].key, Ascii(",\"response_status\":"))
    ensures Named(COMMA, m[6].key, Ascii(",\"timestamp\":"))
  {
    NameIs(',', "response_digest", ",\"response_digest\":");
    NameIs(',', "response_status", ",\"response_status\":");
    NameIs(',', "timestamp", ",\"timestamp\":");
  }

  lemma ClaimRests(c: LegClaim, m: seq<Member>, t: seq<bytes>)
    requires m == ClaimMembers(c) && |t| == 8 && t[7] == Ascii("}")
    requires t[6] == Ascii(",\"timestamp\":") + (PrintString(c.timestamp) + t[7])
    requires t[5] == Ascii(",\"response_status\":") + (PrintNat(c.responseStatus) + t[6])
    requires t[4] == Ascii(",\"response_digest\":") + (PrintString(c.responseDigest) + t[5])
    requires t[3] == Ascii(",\"request_digest\":") + (PrintString(c.requestDigest) + t[4])
    requires t[2] == Ascii(",\"path\":") + (PrintString(c.path) + t[3])
    requires t[1] == Ascii(",\"method\":") + (PrintString(c.httpMethod) + t[2])
    requires t[0] == Ascii("{\"host\":") + (PrintString(c.host) + t[1])
    ensures Print(Obj(m)) == t[0]
  {
    ClaimNames(m);
    MoreClaimNames(m);
    ObjectIs(m);
    MemberPrints(m, 6, Ascii(",\"timestamp\":"), PrintString(c.timestamp), t[7]);
    MemberPrints(m, 5, Ascii(",\"response_status\":"), PrintNat(c.responseStatus), t[6]);
    MemberPrints(m, 4, Ascii(",\"response_digest\":"), PrintString(c.responseDigest), t[5]);
    MemberPrints(m, 3, Ascii(",\"request_digest\":"), PrintString(c.requestDigest), t[4]);
    MemberPrints(m, 2, Ascii(",\"path\":"), PrintString(c.path), t[3]);
    MemberPrints(m, 1, Ascii(",\"method\":"), PrintString(c.httpMethod), t[2]);
    MemberPrints(m, 0, Ascii("{\"host\":"), PrintString(c.host), t[1]);
  }

  /** What is printed for a claim, and the bytes a notary signs. */
  lemma ClaimPrints(c: LegClaim)
    ensures Print(ClaimToJson(c)) == ClaimText(c)
    ensures SigningMessage(c) == Ascii("provably/leg-attestation/v1") + ([0] + ClaimText(c))
  {
    var t7 := Ascii("}");
    var t6 := Ascii(",\"timestamp\":") + (PrintString(c.timestamp) + t7);
    var t5 := Ascii(",\"response_status\":") + (PrintNat(c.responseStatus) + t6);
    var t4 := Ascii(",\"response_digest\":") + (PrintString(c.responseDigest) + t5);
    var t3 := Ascii(",\"request_digest\":") + (PrintString(c.requestDigest) + t4);
    var t2 := Ascii(",\"path\":") + (PrintString(c.path) + t3);
    var t1 := Ascii(",\"method\":") + (PrintString(c.httpMethod) + t2);
    ClaimRests(c, ClaimMembers(c), [ClaimText(c), t1, t2, t3, t4, t5, t6, t7]);
  }

  // ---------------------------------------------------------------- attestations

  function ProofText(p: LegProof): bytes {
    Ascii("{\"kind\":") + (Ascii("\"notary\"") +
    (Ascii(",\"pubkey\":") + (PrintString(p.pubkey) +
    (Ascii(",\"signature\":") + (PrintString(p.signature) +
    Ascii("}"))))))
  }

  function AttestationText(a: LegAttestation): bytes {
    Ascii("{\"claim\":") + (ClaimText(a.claim) +
    (Ascii(",\"proof\":") + (ProofText(a.proof) +
    Ascii("}"))))
  }

  lemma NotaryText()
    ensures PrintString(NOTARY) == Ascii("\"notary\"")
  {
    assert Ascii("\"notary\"") == [QUOTE] + (NOTARY + [QUOTE]);
    PlainEscapes(NOTARY);
  }

  lemma ProofNames(m: seq<Member>)
    requires |m| == 3 && m[0].key == KIND && m[1].key == PUBKEY && m[2].key == SIGNATURE
    ensures Named(LBRACE, m[0].key, Ascii("{\"kind\":")) && Named(COMMA, m[1].key, Ascii(",\"pubkey\":"))
    ensures Named(COMMA, m[2].key, Ascii(",\"signature\":"))
  {
    NameIs('{', "kind", "{\"kind\":");
    NameIs(',', "pubkey", ",\"pubkey\":");
    NameIs(',', "signature", ",\"signature\":");
  }

  lemma ProofPrints(p: LegProof)
    ensures Print(Obj(ProofMembers(p))) == ProofText(p)
  {
    var m := ProofMembers(p);
    ProofNames(m);
    NotaryText();
    ThreePrint(m, [Ascii("{\"kind\":"), Ascii(",\"pubkey\":"), Ascii(",\"signature\":")],
               [Ascii("\"notary\""), PrintString(p.pubkey), PrintString(p.signature)]);
  }

  lemma AttestationNames(m: seq<Member>)
    requires |m| == 2 && m[0].key == CLAIM && m[1].key == PROOF
    ensures Named(LBRACE, m[0].key, Ascii("{\"claim\":")) && Named(COMMA, m[1].key, Ascii(",\"proof\":"))
  {
    NameIs('{', "claim", "{\"claim\":");
    NameIs(',', "proof", ",\"proof\":");
  }

  /** What the notary writes to the prover. */
  lemma AttestationPrints(a: LegAttestation)
    ensures Print(AttestationToJson(a)) == AttestationText(a)
  {
    var m := AttestationMembers(a);
    AttestationNames(m);
    ClaimPrints(a.claim);
    ProofPrints(a.proof);
    TwoPrint(m, [Ascii("{\"claim\":"), Ascii(",\"proof\":")], [ClaimText(a.claim), ProofText(a.proof)]);
  }

  // ---------------------------------------------------------------- nodes

  function NodeProofText(p: NodeProof): bytes {
    match p
    case Leg(att) => Ascii("{\"Leg\":") + (AttestationText(att) + Ascii("}"))
    case Interior(Recompute(fnId)) =>
      Ascii("{\"Interior\":") + ((Ascii("{\"Recompute\":") + ((Ascii("{\"fn_id\":") + (PrintString(fnId) +
      Ascii("}"))) + Ascii("}"))) + Ascii("}"))
  }

  /** Strings with commas between them. */
  function JoinedTexts(ids: seq<bytes>): bytes {
    if ids == [] then []
    else if |ids| == 1 then PrintString(ids[0])
    else PrintString(ids[0]) + (Ascii(",") + JoinedTexts(ids[1..]))
  }

  function NodeText(n: Node): bytes {
    Ascii("{\"id\":") + (PrintString(n.id) +
    (Ascii(",\"inputs\":") + ((Ascii("[") + (JoinedTexts(n.inputs) + Ascii("]"))) +
    (Ascii(",\"output_digest\":") + (PrintString(n.outputDigest) +
    (Ascii(",\"proof\":") + (NodeProofText(n.proof) +
    Ascii("}"))))))))
  }

  function JoinedNodes(nodes: seq<Node>): bytes {
    if nodes == [] then []
    else if |nodes| == 1 then NodeText(nodes[0])
    else NodeText(nodes[0]) + (Ascii(",") + JoinedNodes(nodes[1..]))
  }

  lemma OnlyMember(name: string, text: string, v: Json)
    requires text == "{\"" + name + "\":" && forall i | 0 <= i < |name| :: IsPlain(name[i])
    ensures Print(Obj([Member(Ascii(name), v)])) == Ascii(text) + (Print(v) + Ascii("}"))
  {
    var m := [Member(Ascii(name), v)];
    NameIs('{', name, text);
    ObjectIs(m);
    MemberPrints(m, 0, Ascii(text), Print(v), Ascii("}"));
  }

  lemma NodeProofPrints(p: NodeProof)
    ensures Print(NodeProofToJson(p)) == NodeProofText(p)
  {
    match p
    case Leg(att) =>
      AttestationPrints(att);
      OnlyMember("Leg", "{\"Leg\":", AttestationToJson(att));
    case Interior(Recompute(fnId)) =>
      var fn := Obj([Member(FN_ID, Str(fnId))]);
      var recompute := Obj([Member(RECOMPUTE, fn)]);
      OnlyMember("fn_id", "{\"fn_id\":", Str(fnId));
      OnlyMember("Recompute", "{\"Recompute\":", fn);
      OnlyMember("Interior", "{\"Interior\":", recompute);
  }

  lemma ItemsStep(first: Json, rest: seq<Json>, text: bytes, joined: bytes)
    requires Print(first) == text && PrintItems(rest) == joined
    ensures PrintItems([first] + rest) == if rest == [] then text else text + (Ascii(",") + joined)
  {
    assert ([first] + rest)[1..] == rest;
    assert Ascii(",") == [COMMA];
  }

  lemma {:induction false} TextsPrint(ids: seq<bytes>)
    ensures PrintItems(TextsToJson(ids)) == JoinedTexts(ids) && |TextsToJson(ids)| == |ids|
  {
    if ids != [] {
      TextsPrint(ids[1..]);
      ItemsStep(Str(ids[0]), TextsToJson(ids[1..]), PrintString(ids[0]), JoinedTexts(ids[1..]));
    }
  }

  lemma ListPrints(items: seq<Json>, joined: bytes)
    requires PrintItems(items) == joined
    ensures Print(Arr(items)) == Ascii("[") + (joined + Ascii("]"))
  {
    assert Ascii("[") == [LBRACKET] && Ascii("]") == [RBRACKET];
  }

  lemma NodeNames(m: seq<Member>)
    requires |m| == 4 && m[0].key == ID && m[1].key == INPUTS && m[2].key == OUTPUT_DIGEST && m[3].key == PROOF
    ensures Named(LBRACE, m[0].key, Ascii("{\"id\":")) && Named(COMMA, m[1].key, Ascii(",\"inputs\":"))
    ensures Named(COMMA, m[2].key, Ascii(",\"output_digest\":")) && Named(COMMA, m[3].key, Ascii(",\"proof\":"))
  {
    NameIs('{', "id", "{\"id\":");
    NameIs(',', "inputs", ",\"inputs\":");
    NameIs(',', "output_digest", ",\"output_digest\":");
    NameIs(',', "proof", ",\"proof\":");
  }

  lemma InputsPrint(n: Node)
    ensures Print(Arr(TextsToJson(n.inputs))) == Ascii("[") + (JoinedTexts(n.inputs) + Ascii("]"))
  {
    TextsPrint(n.inputs);
    ListPrints(TextsToJson(n.inputs), JoinedTexts(n.inputs));
  }

  lemma NodePrints(n: Node)
    ensures Print(Obj(NodeMembers(n))) == NodeText(n)
  {
    var m := NodeMembers(n);
    NodeNames(m);
    InputsPrint(n);
    NodeProofPrints(n.proof);
    FourPrint(m, [Ascii("{\"id\":"), Ascii(",\"inputs\":"), Ascii(",\"output_digest\":"), Ascii(",\"proof\":")],
              [PrintString(n.id), Ascii("[") + (JoinedTexts(n.inputs) + Ascii("]")), PrintString(n.outputDigest),
               NodeProofText(n.proof)]);
  }

  lemma {:induction false} NodesPrint(nodes: seq<Node>)
    ensures PrintItems(NodesToJson(nodes)) == JoinedNodes(nodes) && |NodesToJson(nodes)| == |nodes|
  {
    if nodes != [] {
      NodesPrint(nodes[1..]);
      NodePrints(nodes[0]);
      ItemsStep(Obj(NodeMembers(nodes[0])), NodesToJson(nodes[1..]), NodeText(nodes[0]), JoinedNodes(nodes[1..]));
    }
  }

  // ---------------------------------------------------------------- receipts

  /** An absent payment reference leaves no trace. */
  function ReceiptText(r: HarnessReceipt): bytes {
    Ascii("{\"manifest_id\":") + (PrintString(r.manifestId) +
    (Ascii(",\"nodes\":") + ((Ascii("[") + (JoinedNodes(r.nodes) + Ascii("]"))) +
    (Ascii(",\"output_node\":") + (PrintString(r.outputNode) +
    (if r.paymentReference.None? then Ascii("}")
     else Ascii(",\"payment_reference\":") + (PrintString(r.paymentReference.value) + Ascii("}"))))))))
  }

  lemma ReceiptNames(m: seq<Member>)
    requires |m| >= 3 && m[0].key == MANIFEST_ID && m[1].key == NODES && m[2].key == OUTPUT_NODE
    ensures Named(LBRACE, m[0].key, Ascii("{\"manifest_id\":")) && Named(COMMA, m[1].key, Ascii(",\"nodes\":"))
    ensures Named(COMMA, m[2].key, Ascii(",\"output_node\":"))
  {
    NameIs('{', "manifest_id", "{\"manifest_id\":");
    NameIs(',', "nodes", ",\"nodes\":");
    NameIs(',', "output_node", ",\"output_node\":");
  }

  lemma ReferenceName()
    ensures Named(COMMA, PAYMENT_REFERENCE, Ascii(",\"payment_reference\":"))
  {
    NameIs(',', "payment_reference", ",\"payment_reference\":");
  }

  lemma ReceiptNodesPrint(r: HarnessReceipt)
    ensures Print(Arr(NodesToJson(r.nodes))) == Ascii("[") + (JoinedNodes(r.nodes) + Ascii("]"))
  {
    NodesPrint(r.nodes);
    ListPrints(NodesToJson(r.nodes), JoinedNodes(r.nodes));
  }

  /** The text inside a receipt header. */
  lemma ReceiptPrints(r: HarnessReceipt)
    ensures Print(Obj(ReceiptMembers(r))) == ReceiptText(r)
    ensures ToHeader(r) == Base64Url.Encode(ReceiptText(r))
  {
    var m := ReceiptMembers(r);
    var k := [Ascii("{\"manifest_id\":"), Ascii(",\"nodes\":"), Ascii(",\"output_node\":")];
    var v := [PrintString(r.manifestId), Ascii("[") + (JoinedNodes(r.nodes) + Ascii("]")), PrintString(r.outputNode)];
    ReceiptNames(m);
    ReceiptNodesPrint(r);
    if r.paymentReference.None? {
      ThreePrint(m, k, v);
    } else {
      ReferenceName();
      FourPrint(m, k + [Ascii(",\"payment_reference\":")], v + [PrintString(r.paymentReference.value)]);
    }
  }

  // ---------------------------------------------------------------- reading by name

  /** The member named `name` is there once, with value `v`; whatever else there is. */
  predicate HasOnce(members: seq<Member>, name: string, v: Json) {
    exists i | 0 <= i < |members| :: IsOnlyAt(members, Ascii(name), v, i)
  }

  predicate IsOnlyAt(members: seq<Member>, key: bytes, v: Json, i: nat) {
    i < |members| && members[i] == Member(key, v) && forall j | 0 <= j < |members| && j != i :: members[j].key != key
  }

  predicate HasNone(members: seq<Member>, name: string) {
    forall j | 0 <= j < |members| :: members[j].key != Ascii(name)
  }

  lemma {:induction false} LookupMissingIff(members: seq<Member>, key: bytes)
    ensures Lookup(members, key) == Missing <==> forall j | 0 <= j < |members| :: members[j].key != key
  {
    if members != [] {
      LookupMissingIff(members[1..], key);
      var rest := members[1..];
      if forall j | 0 <= j < |rest| :: rest[j].key != key {
        assert forall j | 1 <= j < |members| :: members[j] == rest[j - 1];
      }
      if forall j | 0 <= j < |members| :: members[j].key != key {
        assert forall j | 0 <= j < |rest| :: rest[j] == members[j + 1];
      }
    }
  }

  lemma {:induction false} LookupOnceIff(members: seq<Member>, key: bytes, v: Json)
    ensures Lookup(members, key) == Once(v) <==> exists i | 0 <= i < |members| :: IsOnlyAt(members, key, v, i)
  {
    if members != [] {
      var rest := members[1..];
      LookupOnceIff(rest, key, v);
      LookupMissingIff(rest, key);
      if Lookup(members, key) == Once(v) {
        if members[0].key != key {
          var i :| 0 <= i < |rest| && IsOnlyAt(rest, key, v, i);
          assert forall j | 1 <= j < |members| :: members[j] == rest[j - 1];
          assert IsOnlyAt(members, key, v, i + 1);
        } else {
          assert forall j | 1 <= j < |members| :: members[j] == rest[j - 1];
          assert IsOnlyAt(members, key, v, 0);
        }
      }
      if exists i | 0 <= i < |members| :: IsOnlyAt(members, key, v, i) {
        var i :| 0 <= i < |members| && IsOnlyAt(members, key, v, i);
        assert forall j | 0 <= j < |rest| :: rest[j] == members[j + 1];
        if i > 0 {
          assert IsOnlyAt(rest, key, v, i - 1);
        }
      }
    }
  }

  lemma NamedOnce(members: seq<Member>, name: string, v: Json)
    ensures Lookup(members, Ascii(name)) == Once(v) <==> HasOnce(members, name, v)
  {
    LookupOnceIff(members, Ascii(name), v);
  }

  /** Which objects are read as a claim: those with these seven names, once each and in any order, whatever else. */
  lemma ClaimReadIff(m: seq<Member>, c: LegClaim)
    ensures ClaimFromJson(Obj(m)) == Some(c) <==>
            && HasOnce(m, "host", Str(c.host)) && HasOnce(m, "method", Str(c.httpMethod))
            && HasOnce(m, "path", Str(c.path)) && HasOnce(m, "request_digest", Str(c.requestDigest))
            && HasOnce(m, "response_digest", Str(c.responseDigest))
            && HasOnce(m, "response_status", Num(c.responseStatus)) && HasOnce(m, "timestamp", Str(c.timestamp))
  {
    NamedOnce(m, "host", Str(c.host));
    NamedOnce(m, "method", Str(c.httpMethod));
    NamedOnce(m, "path", Str(c.path));
    NamedOnce(m, "request_digest", Str(c.requestDigest));
    NamedOnce(m, "response_digest", Str(c.responseDigest));
    NamedOnce(m, "response_status", Num(c.responseStatus));
    NamedOnce(m, "timestamp", Str(c.timestamp));
  }

  lemma ProofReadIff(m: seq<Member>, p: LegProof)
    ensures ProofFromJson(Obj(m)) == Some(p) <==>
            && HasOnce(m, "kind", Str(Ascii("notary"))) && HasOnce(m, "pubkey", Str(p.pubkey))
            && HasOnce(m, "signature", Str(p.signature))
  {
    NamedOnce(m, "kind", Str(Ascii("notary")));
    NamedOnce(m, "pubkey", Str(p.pubkey));
    NamedOnce(m, "signature", Str(p.signature));
  }

  lemma AttestationReadIff(m: seq<Member>, a: LegAttestation)
    ensures AttestationFromJson(Obj(m)) == Some(a) <==>
            exists c, p :: && HasOnce(m, "claim", c) && ClaimFromJson(c) == Some(a.claim)
                           && HasOnce(m, "proof", p) && ProofFromJson(p) == Some(a.proof)
  {
    forall v ensures Lookup(m, CLAIM) == Once(v) <==> HasOnce(m, "claim", v) {
      NamedOnce(m, "claim", v);
    }
    forall v ensures Lookup(m, PROOF) == Once(v) <==> HasOnce(m, "proof", v) {
      NamedOnce(m, "proof", v);
    }
    if AttestationFromJson(Obj(m)) == Some(a) {
      assert HasOnce(m, "claim", Lookup(m, CLAIM).value) && HasOnce(m, "proof", Lookup(m, PROOF).value);
    }
  }

  lemma NodeProofReadIff(j: Json, p: NodeProof)
    ensures NodeProofFromJson(j) == Some(p) <==>
            && j.Obj? && |j.members| == 1
            && match p
               case Leg(att) => j.members[0].key == Ascii("Leg") && AttestationFromJson(j.members[0].value) == Some(att)
               case Interior(Recompute(fnId)) =>
                 && j.members[0].key == Ascii("Interior")
                 && var i := j.members[0].value;
                    && i.Obj? && |i.members| == 1 && i.members[0].key == Ascii("Recompute")
                    && (i.members[0].value.Obj? ==> HasOnce(i.members[0].value.members, "fn_id", Str(fnId)))
                    && (!i.members[0].value.Obj? ==> i.members[0].value == Arr([Str(fnId)]))
  {
    assert Ascii("Leg")[0] != Ascii("Interior")[0];
    match p {
      case Leg(_) =>
      case Interior(Recompute(fnId)) =>
        if j.Obj? && |j.members| == 1 && j.members[0].value.Obj? && |j.members[0].value.members| == 1 {
          FnIdReads(j.members[0].value.members[0].value, fnId);
        }
    }
  }

  lemma FnIdReads(j: Json, fnId: bytes)
    ensures Text(Field(j, FN_ID, 0, 1)) == Some(fnId) <==>
            (j.Obj? ==> HasOnce(j.members, "fn_id", Str(fnId))) && (!j.Obj? ==> j == Arr([Str(fnId)]))
  {
    if j.Obj? {
      NamedOnce(j.members, "fn_id", Str(fnId));
    }
  }

  lemma {:induction false} TextsReadIff(items: seq<Json>, ids: seq<bytes>)
    ensures TextsFromJson(items) == Some(ids) <==>
            |items| == |ids| && forall i | 0 <= i < |ids| :: items[i] == Str(ids[i])
  {
    if items != [] && ids != [] {
      TextsReadIff(items[1..], ids[1..]);
      assert ids == [ids[0]] + ids[1..];
      if TextsFromJson(items).Some? {
        assert TextsFromJson(items).value[1..] == TextsFromJson(items[1..]).value;
      }
      assert forall i | 0 <= i < |items[1..]| :: items[1..][i] == items[i + 1];
    }
  }

  lemma NodeReadIff(m: seq<Member>, n: Node)
    ensures NodeFromJson(Obj(m)) == Some(n) <==>
            && HasOnce(m, "id", Str(n.id)) && HasOnce(m, "output_digest", Str(n.outputDigest))
            && exists inputs, p :: && HasOnce(m, "inputs", Arr(inputs)) && TextsFromJson(inputs) == Some(n.inputs)
                                   && HasOnce(m, "proof", p) && NodeProofFromJson(p) == Some(n.proof)
  {
    NamedOnce(m, "id", Str(n.id));
    NamedOnce(m, "output_digest", Str(n.outputDigest));
    forall v ensures Lookup(m, INPUTS) == Once(v) <==> HasOnce(m, "inputs", v) {
      NamedOnce(m, "inputs", v);
    }
    forall v ensures Lookup(m, PROOF) == Once(v) <==> HasOnce(m, "proof", v) {
      NamedOnce(m, "proof", v);
    }
    if NodeFromJson(Obj(m)) == Some(n) {
      var inputs, p := Lookup(m, INPUTS).value.items, Lookup(m, PROOF).value;
      assert HasOnce(m, "inputs", Arr(inputs)) && HasOnce(m, "proof", p);
    }
  }

  /** An absent payment reference, or one that is `null`, is none. */
  lemma ReceiptReadIff(m: seq<Member>, r: HarnessReceipt)
    ensures ReceiptFromJson(Obj(m)) == Some(r) <==>
            && HasOnce(m, "manifest_id", Str(r.manifestId)) && HasOnce(m, "output_node", Str(r.outputNode))
            && (exists nodes :: HasOnce(m, "nodes", Arr(nodes)) && NodesFromJson(nodes) == Some(r.nodes))
            && match r.paymentReference
               case None => HasNone(m, "payment_reference") || HasOnce(m, "payment_reference", Null)
               case Some(reference) => HasOnce(m, "payment_reference", Str(reference))
  {
    NamedOnce(m, "manifest_id", Str(r.manifestId));
    NamedOnce(m, "output_node", Str(r.outputNode));
    forall v ensures Lookup(m, NODES) == Once(v) <==> HasOnce(m, "nodes", v) {
      NamedOnce(m, "nodes", v);
    }
    forall v ensures Lookup(m, PAYMENT_REFERENCE) == Once(v) <==> HasOnce(m, "payment_reference", v) {
      NamedOnce(m, "payment_reference", v);
    }
    LookupMissingIff(m, PAYMENT_REFERENCE);
    if ReceiptFromJson(Obj(m)) == Some(r) {
      assert HasOnce(m, "nodes", Arr(Lookup(m, NODES).value.items));
    }
  }

  lemma {:induction false} NodesReadIff(items: seq<Json>, nodes: seq<Node>)
    ensures NodesFromJson(items) == Some(nodes) <==>
            |items| == |nodes| && forall i | 0 <= i < |nodes| :: NodeFromJson(items[i]) == Some(nodes[i])
  {
    if items != [] && nodes != [] {
      NodesReadIff(items[1..], nodes[1..]);
      assert nodes == [nodes[0]] + nodes[1..];
      if NodesFromJson(items).Some? {
        assert NodesFromJson(items).value[1..] == NodesFromJson(items[1..]).value;
      }
      assert forall i | 1 <= i < |items| :: items[1..][i - 1] == items[i];
      assert forall i | 1 <= i < |nodes| :: nodes[1..][i - 1] == nodes[i];
    }
  }

  // ---------------------------------------------------------------- reading by position

  /** Which values other than objects are read: arrays of exactly the fields, in the order of their declaration. */
  lemma ClaimArrayIff(j: Json, c: LegClaim)
    requires !j.Obj?
    ensures ClaimFromJson(j) == Some(c) <==>
            j == Arr([Str(c.host), Str(c.httpMethod), Str(c.path), Str(c.requestDigest), Str(c.responseDigest),
                      Num(c.responseStatus), Str(c.timestamp)])
  {
    if j.Arr? && |j.items| == 7 && ClaimFromJson(j) == Some(c) {
      var k := j.items;
      assert k == [k[0], k[1], k[2], k[3], k[4], k[5], k[6]];
    }
  }

  lemma ProofArrayIff(j: Json, p: LegProof)
    requires !j.Obj?
    ensures ProofFromJson(j) == Some(p) <==> j == Arr([Str(Ascii("notary")), Str(p.pubkey), Str(p.signature)])
  {
    if j.Arr? && |j.items| == 3 && ProofFromJson(j) == Some(p) {
      var k := j.items;
      assert k == [k[0], k[1], k[2]];
    }
  }

  lemma AttestationArrayIff(j: Json, a: LegAttestation)
    requires !j.Obj?
    ensures AttestationFromJson(j) == Some(a) <==>
            j.Arr? && |j.items| == 2
            && ClaimFromJson(j.items[0]) == Some(a.claim) && ProofFromJson(j.items[1]) == Some(a.proof)
  {
  }

  lemma NodeArrayIff(j: Json, n: Node)
    requires !j.Obj?
    ensures NodeFromJson(j) == Some(n) <==>
            && j.Arr? && |j.items| == 4 && j.items[0] == Str(n.id)
            && j.items[1].Arr? && TextsFromJson(j.items[1].items) == Some(n.inputs)
            && j.items[2] == Str(n.outputDigest) && NodeProofFromJson(j.items[3]) == Some(n.proof)
  {
  }

  lemma ReceiptArrayIff(j: Json, r: HarnessReceipt)
    requires !j.Obj?
    ensures ReceiptFromJson(j) == Some(r) <==>
            && j.Arr? && |j.items| == 4 && j.items[0] == Str(r.manifestId)
            && j.items[1].Arr? && NodesFromJson(j.items[1].items) == Some(r.nodes)
            && j.items[2] == Str(r.outputNode)
            && j.items[3] == if r.paymentReference.None? then Null else Str(r.paymentReference.value)
  {
  }
}
