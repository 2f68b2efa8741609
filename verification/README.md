# Provably: a verified model

A buyer pays a seller for a result and gets a *receipt* with it: a graph whose legs are external calls that a
notary witnessed and signed, and whose interior nodes are public transforms the buyer can re-run. This project
models that protocol in Dafny and proves what acceptance of a receipt is worth.

The modules follow the program:

| file | models |
|---|---|
| `Bytes.dfy` | byte strings, first occurrence of a pattern, `str::trim`, hexadecimal |
| `Base64Url.dfy` | unpadded base64url (section 5 of RFC 4648), by 6-bit regrouping |
| `Json.dfy` | compact JSON printing and a parser with every string escape (RFC 8259) |
| `Core.dfy` | claims, attestations, nodes, receipts, signed bytes, the receipt header, signature verification |
| `Materials.dfy` | the materials sidecar, and the ordered map it carries |
| `WireText.dfy` | claim, attestation, node and receipt as text: what is printed and what is read, name by name |
| `Verifier.dfy` | the worklist search for legs, `verify`, `gate`, and laws of acceptance |
| `Http.dfy` | header split, `dechunk`, start lines, and the printer they undo (RFC 9112) |
| `NotaryService.dfy` | one notary session, with each of its early returns |
| `Disclosure.dfy` | what the reseller reveals of its request, and how that commutes with parsing |
| `Hiding.dfy` | what hiding any bytes of any message does to the body decoded from it |
| `Harness.dfy`, `Buyer.dfy`, `Reseller.dfy` | the transform, the buyer's decision, the seller's response |
| `Soundness.dfy` | from node-by-node digest checks to the value of the whole graph |
| `Protocol.dfy` | runs: notary sessions and purchases in any order, with arbitrary provers and sellers; safety |
| `Exchanges.dfy` | what a notarised exchange is worth in a run: honest, redacted, or hiding what its prover likes |
| `RepeatedIds.dfy` | what a receipt with a repeated node id gets past the buyer |

The main results:

- **Genuine deliveries** (`Protocol.AcceptedDeliveryIsGenuine`). In every run, whatever sellers and provers send, a
  delivery accepted by a buyer who pins the notary's key is what running the graph the buyer re-ran gives on the
  response bodies the notary saw, in sessions signed before the decision, if what the output depends on has no cycle.
  The graph is made of the receipt's own nodes, one for each id. The proof joins the header codecs, the search, the
  checks, the buyer's re-run, the graph induction and the injectivity of signed bytes.
- **When that is the graph a reader sees** (`Protocol.AcceptedDeliveryRunsIndex`). What the output depends on in the id
  index gives the body if those nodes re-run to their digests, which is so when ids are unique. Otherwise it may not:
  `RepeatedIds.RepeatedIdInAnyRun` sells a yes for an upstream answer that is a no.
- **What hiding does** (`Hiding.BodyKeptIff`). For every message and all ranges, the body decoded from what is shown is
  the real one if the split, the framing and all content but zeros are shown, and, unless hiding breaks up the chunks
  of a chunked message, only then.
- **What the upstream really sent** (`Protocol.AcceptedDeliveryIsReal`, `Protocol.AcceptedReplyIsRealIff`). Genuine
  deliveries are so of the real response bodies if behind each leg is a session whose prover left the body as it was in
  that sense, and the condition is exact for each session. `Exchanges.HiddenReplyInAnyRun` is the converse: a prover
  may hide anything, the verdict on what is left is accepted, and it is the real one for every judge of answers exactly
  under that condition.
- **What was really asked** (`Protocol.AcceptedRequestIsRealIff`, `Protocol.AcceptedOutputWasAsked`). The legs the
  output depends on are of sessions in which the notary saw the buyer's request; it is the request really sent exactly
  under the same condition on what was hidden of it. Without the condition another question can have been asked
  (`Exchanges.OtherQuestionInAnyRun`). Every leg's host is the one the buyer allows
  (`Protocol.AcceptedLegsAreWitnessed`).
- **Exactly which deliveries are accepted** (`Exchanges.AnyExchangeInAnyRun`). For any notarised exchange, either mode
  and any answer. So honest sellers are accepted and substitution is pinpointed (`Exchanges.ExchangeInAnyRun`,
  `Reseller.SubstitutionPinpointed`), through redaction, either framing, notarisation and both header codecs.
- **Redaction commutes with parsing, and exactly when** (`Disclosure.RedactionKeepsBody`).
- **Chunked decoding** is the inverse of the chunked coding, monotone on arbitrary bytes, and exact on truncated
  input (`Http.ChunkedRoundTrip`, `Http.DechunkMonotone`, `Http.TruncatedChunks`).

## Assumptions

- A Rust `String` is the bytes of its UTF-8 form; the theorems hold of all byte strings.
- SHA-256 is an arbitrary function. That it has no collision is a hypothesis of the theorems that need it, and
  only on the values named there (`Protocol.ValuesAt`, `Soundness.Covers`).
- Ed25519 is ideal (`Core.Ideal`, `Protocol.CryptoAt`): under the notary's key exactly the messages it signed
  verify, with the signature it gave. Nothing is assumed of other keys.
- Bytes of either side that the prover does not reveal reach the notary as zero. This is done inside the proving
  library, which is not part of this model.
- Cycles and repeated ids: the program documents that receipts have neither (crates/provably-core/src/lib.rs:3,
  crates/provably-core/src/lib.rs:33) and checks neither. Where a theorem assumes that there is no cycle, it is only
  among what the sold output depends on; without that, `Soundness.AcceptedBodySolvesGraph` is what remains true. Unique
  ids are not assumed by any result about accepted deliveries. When an id repeats, the index keeps its last node while
  the verifier takes the digest of its first re-run node: the body is what `Soundness.RerunGraph` gives, and
  `Soundness.IndexedGraphRunsIff` says what re-running the indexed nodes would add.
- The api key is not empty (an empty one stops the program at `windows(0)`) and holds neither CR nor LF.
- Whether an answer counts as a yes, and what a cheating seller substitutes, are arbitrary functions.

## Where code and comments differ

tlsn/notary/src/main.rs:202-203 says that request bodies are handled whether chunked or not. With redaction in
front this is not so: the notary may no longer see that the body is chunked. `Disclosure.RedactionCanChangeBody`
gives a family of requests the reseller can send for which the notary decodes other bytes than were sent, and
`Disclosure.RedactionKeepsBody` says exactly for which requests it does not.

crates/provably-core/src/lib.rs:33 says that a node id is unique within one receipt. Nothing checks it, and with a
repeated id the digest re-checked for a node may be another node's (`RepeatedIds.DoubledIsAccepted`).

## Model

| member | source | states |
|---|---|---|
| Verifier.LegAncestors | crates/provably-verifier/src/lib.rs:151-167 | On any graph (cyclic, dangling or repeated inputs) the search ends and returns the attestations of exactly the legs reachable through interior nodes, each once |
| Verifier.Verify | crates/provably-verifier/src/lib.rs:54-146 | The mutable list ends as the specified list; all pass iff the declarative predicate `Accepts` holds; each check's flag is the assertion its name makes, each assertion about each node has its check, and they come in the program's order (`Reports`) |
| Verifier.VerifyNode | crates/provably-verifier/src/lib.rs:93-143 | One turn of the walk pushes the checks about that node: each flag is the assertion its name makes, none is missing, in order |
| Verifier.WalkNodes | crates/provably-verifier/src/lib.rs:92-143 | The walk appends the checks of every node, in order, to those already there, each with the flag its name asserts |
| Verifier.ChecksSay | crates/provably-verifier/src/lib.rs:54-146 | By name: a proof check means the proof verifies, a host check that the host is allowed, a recompute check that the first digest recorded for the id is the node's, and so on for every name |
| Verifier.FindRecomputedIs | crates/provably-verifier/src/lib.rs:118-123 | The digest found for an id is the first recorded one, and none is found iff none is recorded |
| Verifier.BindRequest | crates/provably-verifier/src/lib.rs:83-90 | The request is bound iff some leg is reachable from the output and every reachable leg attests the expected digest |
| Verifier.ChecksDecide | crates/provably-verifier/src/lib.rs:54-146 | The list of checks passes exactly when manifest, output, payment, request, edges, legs and recomputed digests are as quantified in `Accepts` |
| Verifier.Gate | crates/provably-mpp/src/lib.rs:78-82 | The gate is true iff the receipt is acceptable |
| Verifier.IndexIsLast | crates/provably-verifier/src/lib.rs:60-60 | The id index holds every id, and of nodes sharing an id the last |
| Verifier.RelaxingKeepsAcceptance | crates/provably-verifier/src/lib.rs:83-143 | More allowed hosts, a dropped pin, a dropped request digest or appended recomputed entries never turn an accepted receipt away |
| Verifier.PermutationIrrelevant | crates/provably-verifier/src/lib.rs:54-146 | With unique ids the answer is the same for every permutation of the nodes |
| Verifier.InputOrderIrrelevant | crates/provably-verifier/src/lib.rs:54-146 | The answer is the same for every reordering or repetition of nodes' inputs, ids unique or not |
| Http.Dechunk | tlsn/notary/src/main.rs:266-286 | On any bytes every slice is in range, the loop ends, the result is what `DechunkTurn` and `DechunkWithoutLine` describe, and output plus three bytes a chunk fits in the input |
| Http.DechunkTurn | tlsn/notary/src/main.rs:268-284 | On any body with a line end: the first line announces a size, and either the rest is dropped or that many bytes are data and a line end after them is dropped |
| Http.DechunkWithoutLine | tlsn/notary/src/main.rs:268-268 | A body without a line end decodes to nothing |
| Http.ChunkSizeIs | tlsn/notary/src/main.rs:269-274 | The size is read from the trimmed part before the first semicolon, and is 0 if that cannot be read |
| Http.ParseHexIff | tlsn/notary/src/main.rs:273-273 | A text is read as a size iff it is an optional plus sign and hexadecimal digits whose value in base 16 is below 2^64 |
| Http.DechunkBound | tlsn/notary/src/main.rs:266-267 | The length bound that makes the initial capacity enough |
| Http.DechunkMonotone | tlsn/notary/src/main.rs:266-286 | More input never takes back output, well formed or not |
| Http.ChunkedRoundTrip | tlsn/notary/src/main.rs:266-286 | Any chunks with any hex case, leading zeros, blanks and extensions, then the last chunk and any bytes, decode to the concatenated data |
| Http.TruncatedChunks | tlsn/notary/src/main.rs:266-286 | An encoding cut anywhere decodes to exactly the chunks that arrived whole |
| Http.OversizeStops | tlsn/notary/src/main.rs:271-278 | A size that overflows `usize` ends the body |
| Http.SizeLineRead | tlsn/notary/src/main.rs:269-274 | The size read from a chunk line is the base-16 value of its digits, most significant first, or 0 if that overflows |
| Http.HeaderEndFound | tlsn/notary/src/main.rs:244-249 | The first blank line of a printed message is the true end of its header section, whatever the body holds |
| Http.ChunkedHead | tlsn/notary/src/main.rs:257-263 | For a printed header section the test is the same test on its lines |
| Http.ChunkedHeadIff | tlsn/notary/src/main.rs:257-263 | It is true iff some line starts with `transfer-encoding:` and holds `chunked`, letter by letter in either case |
| Http.HeaderIsChunkedIff | tlsn/notary/src/main.rs:257-263 | The same on any header bytes, for the lines that `str::lines` gives |
| Http.LinesAre | tlsn/notary/src/main.rs:260-260 | A line ends at a line feed, less one carriage return; a last one without is kept whole |
| Http.DecodedBodyIs | tlsn/notary/src/main.rs:243-255 | The body of any message is what follows the first CR LF CR LF, decoded iff a line before it declares chunking |
| Http.IdentityBody | tlsn/notary/src/main.rs:243-255 | A printed message that is not chunked decodes to its body |
| Http.ChunkedBody | tlsn/notary/src/main.rs:243-255 | A printed chunked message decodes to its payload |
| Http.RequestLineRoundTrip | tlsn/notary/src/main.rs:288-297 | Method and path of a printed request are read back |
| Http.WordsRead | tlsn/notary/src/main.rs:288-297 | The first two words of a line are read whatever whitespace stands around them |
| Http.StatusRoundTrip | tlsn/notary/src/main.rs:299-307 | Every u16 status of a printed response is read back |
| Http.ParseU16Iff | tlsn/notary/src/main.rs:304-306 | A text is read as a status iff it is an optional plus sign and decimal digits whose value in base 10 is below 2^16 |
| Http.PrintNatSpells | crates/provably-core/src/lib.rs:144-144 | A printed number is its decimal digits, most significant first, without a leading zero |
| Disclosure.ProveConfigBuilder.DiscloseRequest | tlsn/reseller/src/main.rs:363-394 | The builder gains the two ranges around the key's first occurrence, or the whole request when there is no key; with a key that cannot be found it fails and gains nothing |
| Disclosure.RangesPartition | tlsn/reseller/src/main.rs:371-377 | The two ranges are disjoint and leave out exactly the window of the key's first occurrence |
| Disclosure.KeyHiddenIffOnce | tlsn/reseller/src/main.rs:361-377 | For a key without zero bytes, the notary's view holds the key iff it occurs again after the hidden window |
| Disclosure.RedactionKeepsSplit | tlsn/notary/src/main.rs:244-249 | Hiding a key in the header section leaves the header/body split and the body bytes as they were |
| Disclosure.RedactionKeepsBody | tlsn/notary/src/main.rs:193-212 | The decoded body is unchanged iff it is empty or a chunked declaration, where there is one, is still seen |
| Disclosure.RedactionHidesFraming | tlsn/notary/src/main.rs:198-203 | The same for any lines around the declaration, if no line before it holds a "k" and no line after it declares chunking |
| Disclosure.RedactionCanChangeBody | tlsn/reseller/src/main.rs:339-377 | The reseller's own header lines with `transfer-encoding: chunked` configured and the key "chunked": for every chunked body the notary decodes the wire form, which is never the body sent |
| Disclosure.RedactedRequestBody | tlsn/reseller/src/main.rs:350-394 | For a non-chunked request with a header line that carries the key, the body decoded from the partial view is the body sent |
| Disclosure.RedactedRequestLine | tlsn/notary/src/main.rs:195-195 | Method and path are read as sent iff the key first occurs after the path |
| Disclosure.ViewIsWhole | tlsn/notary/src/main.rs:192-194 | A transcript is seen as it was iff no byte but zeros is hidden, so whenever all of it is revealed |
| Hiding.SplitKeptIff | tlsn/notary/src/main.rs:244-249 | The header end stays where it was iff its four bytes are shown; otherwise it is lost or found further on |
| Hiding.SameDataSamePayload | tlsn/notary/src/main.rs:266-286 | Two bodies cut into chunks at the same places decode alike iff they agree on the chunks' data |
| Hiding.SameFramingSameChunks | tlsn/notary/src/main.rs:266-286 | Bodies that agree outside the chunks' data are cut into chunks at the same places |
| Hiding.BodyKeptIff | tlsn/notary/src/main.rs:192-212 | For every message and all ranges: the decoded body is kept if split and framing are read as they are and no content is hidden but zeros, and, for every message that is not chunked and every chunked one whose chunks are still told apart, only if |
| Hiding.ShownFraming | tlsn/notary/src/main.rs:266-286 | Chunks are told apart if the split and all bytes outside their data are shown |
| Hiding.RedactionKeepsBodyIff | tlsn/reseller/src/main.rs:363-394 | A request with its key redacted meets the condition iff it has no body or a chunked declaration, where there is one, is still seen |
| Bytes.TrimSurrounded | crates/provably-core/src/lib.rs:149-149 | Surrounding whitespace of any kind, Unicode's included, is removed and nothing else, from any text that neither starts nor ends with whitespace |
| Json.SpaceIsUnicode | crates/provably-core/src/lib.rs:149-149 | The whitespace removed is exactly the characters of Unicode's property White_Space, in their UTF-8 form |
| Bytes.HexDecodeIff | crates/provably-core/src/lib.rs:187-192 | A text decodes to bytes iff it spells each by two hexadecimal digits, high half first, in either case |
| Bytes.HexEncodeSpells | crates/provably-core/src/lib.rs:28-31 | Digests are written with the digits 0-9a-f, two a byte, high half first |
| Base64Url.DecodeIffEncoded | crates/provably-core/src/lib.rs:143-152 | The decoder accepts exactly the encoder's texts: no padding, no stray bits |
| Base64Url.Alphabet | crates/provably-core/src/lib.rs:21-21 | The digits are the URL-safe alphabet of RFC 4648, in its order |
| Base64Url.EncodeSpells | crates/provably-core/src/lib.rs:144-144 | Each four digits are the 24 bits of three bytes, most significant first, and the text is no longer than its bits need |
| Json.RoundTrip | crates/provably-core/src/lib.rs:143-152 | Reading back the printed text of any value gives that value |
| Json.PrintIs | crates/provably-core/src/lib.rs:144-144 | The text of each kind of value, in literals |
| Json.EscapeIs | crates/provably-core/src/lib.rs:144-144 | How each byte of a string is written, in literals |
| Json.EscapeReads | crates/provably-core/src/lib.rs:151-151 | How each one-letter escape is read, and that there are no others |
| Json.WsAround | crates/provably-core/src/lib.rs:151-151 | A document may stand between spaces, tabs, line feeds and carriage returns |
| Json.TrailingRefused | crates/provably-core/src/lib.rs:151-151 | Nothing else may follow an object |
| Json.UnicodeEscapeReads | crates/provably-core/src/lib.rs:151-151 | The escaped spelling of any character, surrogate pairs included, is read as its UTF-8 bytes |
| Json.UnicodeEscapeIs | crates/provably-core/src/lib.rs:151-151 | That spelling is four hexadecimal digits, or two surrogates of four that stand for the character |
| Json.Utf8Is | crates/provably-core/src/lib.rs:151-151 | The UTF-8 form has the length, marks and value that RFC 3629 gives it |
| Json.LoneSurrogateRefused | crates/provably-core/src/lib.rs:151-151 | In a string that is read, a surrogate not first of a pair is an error |
| Json.ValueSkips | crates/provably-core/src/lib.rs:151-151 | A value is passed over exactly when it can be skipped, and ends at the same place, so it makes no difference that what no field needs (fractions, negative numbers, broken surrogates) is skipped unread |
| Json.NumberSkipped | crates/provably-core/src/lib.rs:151-151 | Every number of the JSON grammar is skipped whole: negative ones, fractions and exponents included |
| Json.UnicodeEscapeSkipped | crates/provably-core/src/lib.rs:151-151 | In a skipped string any four hexadecimal digits after `\u` will do |
| Core.HeaderRoundTrip | crates/provably-core/src/lib.rs:142-152 | A receipt header, in any surrounding whitespace, reads back as its receipt, with or without a payment reference; `WireText` fixes the text in between |
| WireText.ReceiptPrints | crates/provably-core/src/lib.rs:131-145 | The header is the base64url form of a JSON text given in literals, names and punctuation included |
| WireText.NodePrints | crates/provably-core/src/lib.rs:119-127 | The text of a node, in literals |
| WireText.ReceiptReadIff | crates/provably-core/src/lib.rs:131-152 | Which objects are read as a receipt: those with the literal names once each, in any order and whatever else; a missing or `null` payment reference is none |
| WireText.NodeReadIff | crates/provably-core/src/lib.rs:119-127 | The same for nodes |
| WireText.NodeProofReadIff | crates/provably-core/src/lib.rs:94-116 | The same for node proofs: one member, named by its kind |
| WireText.ReceiptArrayIff | crates/provably-core/src/lib.rs:131-152 | Which other values are read as a receipt: arrays of exactly its fields in order |
| WireText.ClaimArrayIff | crates/provably-core/src/lib.rs:43-52 | The same for claims |
| Core.FromHeaderIs | crates/provably-core/src/lib.rs:147-152 | Which headers are read as which receipt, and that the others fail as base64 or as JSON |
| Core.PositionalReceiptReads | crates/provably-core/src/lib.rs:131-139 | A receipt written as an array of its fields in order reads as the same receipt |
| Core.AttestationWireRoundTrip | tlsn/notary/src/main.rs:216-228 | The attestation the notary writes is the one the prover reads |
| WireText.AttestationPrints | crates/provably-core/src/lib.rs:63-77 | What the notary writes, in literals |
| WireText.AttestationReadIff | crates/provably-core/src/lib.rs:63-77 | Which objects are read as an attestation, by literal names in any order |
| WireText.ProofReadIff | crates/provably-core/src/lib.rs:65-69 | The same for leg proofs, tagged `notary` |
| WireText.ClaimReadIff | crates/provably-core/src/lib.rs:43-52 | Which objects are read as a claim: those with the seven literal names once each, in any order and whatever else |
| WireText.ClaimPrints | crates/provably-core/src/lib.rs:50-60 | The text of a claim in literals, and the signed bytes: domain, a zero byte, that text |
| Core.SigningMessageInjective | crates/provably-core/src/lib.rs:50-60 | The signed bytes determine all seven fields of the claim |
| Core.VerifiesIffSigned | crates/provably-core/src/lib.rs:78-88 | Under the notary's key a proof verifies iff that claim was signed and the signature is the one given |
| Core.VerifyProofIs | crates/provably-core/src/lib.rs:78-88 | For any key and signature text: malformed hex, wrong length, bad key and bad signature in that order, and else success iff the signature verifies over the claim's signed bytes |
| Core.AttestVerifies | crates/provably-transport/src/notary.rs:28-43 | What the notary attests verifies and carries its key |
| Core.TamperedClaimFails | crates/provably-transport/src/notary.rs:77-83 | An attested claim changed to any claim never signed fails with a bad signature |
| Materials.EveryMapRoundTrips | crates/provably-mpp/src/lib.rs:28-54 | Every finite map from ids to bytes survives its header |
| Materials.HeaderRoundTrip | crates/provably-mpp/src/lib.rs:30-54 | The same for the ordered entries, in any surrounding whitespace |
| Materials.HeaderText | crates/provably-mpp/src/lib.rs:28-35 | What is inside the header: a JSON object from id to base64url text, in literals |
| Materials.FromHeaderIff | crates/provably-mpp/src/lib.rs:38-54 | Which headers are read as which map |
| Materials.LessIff | crates/provably-mpp/src/lib.rs:28-33 | Entries are in the order of the first different byte, a text before its continuations |
| Materials.InsertIsUpdate | crates/provably-mpp/src/lib.rs:43-46 | Inserting keeps the entries in order and updates the map at one key |
| Materials.ReadKeepsLast | crates/provably-mpp/src/lib.rs:43-44 | An object is read iff its values are all strings, a repeated key keeping its last value |
| Materials.FromHeaderSorted | crates/provably-mpp/src/lib.rs:39-54 | Whatever a seller sends, what is read is a map: each id once |
| NotaryService.NotarizeSession | tlsn/notary/src/main.rs:119-238 | A session is signed iff it ran in proxy mode, revealed identity, name and transcript, and was with the configured upstream; what is signed is the claim about the bytes shown, and each early error is told apart |
| Harness.Rerun | examples/harness/src/lib.rs:24-29 | Known only for `starts_with_yes`, whose result is a yes iff its first input counts as one, a missing input counting as empty |
| Buyer.CheckMaterials | examples/buyer/src/main.rs:158-177 | The first loop: entry i is named after material i and passes iff the indexed node of its id commits to the digest of its bytes; exactly the ids of passing ones are trusted, with bytes that passed |
| Buyer.TrustedIs | examples/buyer/src/main.rs:158-177 | An id is trusted iff a material of it passes, with the bytes of the last that does |
| Buyer.RerunAll | examples/buyer/src/main.rs:179-195 | The second loop: in node order, an entry for each node that can be re-run and for no other, with the digest of its result |
| Buyer.OutputIs | examples/buyer/src/main.rs:181-195 | A node can be re-run iff it is interior, of the known transform, with all inputs trusted; its result is 1 or 0 by the first input |
| Buyer.Decide | examples/buyer/src/main.rs:108-227 | Accepts iff the status is a success, the headers are legible and, condition by condition, every material and the receipt pass (`Passes`); shows a check for each material first and then those of the verification |
| Buyer.PassesIff | examples/buyer/src/main.rs:154-215 | All checks pass iff materials, manifest `starts-with-yes-v1`, output, payment, request, inputs, legs and re-run nodes are each as required, for every receipt |
| Buyer.ReadIff | examples/buyer/src/main.rs:115-149 | What is read: three legible headers of a response with a status from 200 to 299 |
| Buyer.TrustedIsGenuine | examples/buyer/src/main.rs:158-177 | A trusted material is one that was shipped and hashes to its node's committed digest |
| Buyer.RecomputedIsFirstRerun | crates/provably-verifier/src/lib.rs:118-123 | The recomputed digest found for an id is that of the first node of that id the buyer could re-run |
| Reseller.ResponseReads | tlsn/reseller/src/main.rs:244-299 | The buyer reads from the response headers the bundle and material the seller made |
| Reseller.ResponseIs | tlsn/reseller/src/main.rs:244-299 | The response in literals: ids, transform, manifest, status, and the verdict on what is shipped |
| Reseller.BundleAnswers | crates/provably-verifier/src/lib.rs:77-90 | In the two-node bundle the sold output depends on exactly the one leg |
| Reseller.BundleFailures | examples/buyer/src/main.rs:163-215 | With the attestation in order, nothing fails if the shipped bytes have the attested digest, and otherwise exactly the material check and the verdict's not re-verified check |
| Reseller.SubstitutionPinpointed | tlsn/reseller/src/main.rs:244-299 | The same for a response in either mode with any substitute: accepted iff the shipped digest is the attested one |
| Reseller.ResponseAcceptedIff | examples/buyer/src/main.rs:146-227 | For every purchase and attestation the response is accepted iff they agree (proof, key, host, request digest) and the shipped answer has the attested digest |
| Soundness.SolutionIsEvaluation | crates/provably-core/src/lib.rs:1-7 | In a graph without cycles running the graph gives the value of any solution of its equations |
| Soundness.AcceptedRerunGraph | examples/buyer/src/main.rs:179-195 | The graph made of legs and first re-run nodes has one node of the receipt for each id, with the indexed node's digest, and the buyer re-ran all of it |
| Soundness.ConsistentIsSolved | examples/buyer/src/main.rs:154-195 | On any graph, if every interior node re-runs to its digest and legs, materials and body have theirs, there is a solution whose output value is the body |
| Soundness.AcceptedBodySolvesGraph | examples/buyer/src/main.rs:158-215 | For every accepted receipt, cycles and repeated ids included: the body is the output's value in a solution of that graph, or of any part of it closed under inputs, over the bytes behind its legs' digests, if hashing tells them apart |
| Soundness.AcceptedBodyIsEvaluation | examples/buyer/src/main.rs:158-215 | If a part of that graph with the output and its own inputs has no cycle, the body is the part's recursive evaluation at the output node |
| Soundness.IndexedGraphRunsIff | crates/provably-verifier/src/lib.rs:60-60 | In an accepted receipt, the indexed nodes of such a part without cycle re-run to their digests iff their inputs are all trusted and running them gives each node's digest |
| Soundness.RerunIndexRuns | crates/provably-verifier/src/lib.rs:60-60 | In that case the accepted body is what running that part of the id index gives |
| Soundness.UniqueIdsRerun | crates/provably-core/src/lib.rs:33-33 | With unique ids an accepted receipt's indexed nodes always re-run to their digests |
| Soundness.NoCycles | crates/provably-core/src/lib.rs:1-7 | If the edges that the nodes declare form no cycle, neither the index nor the buyer's graph has one, whatever the buyer trusts |
| Soundness.PartEvaluation | crates/provably-core/src/lib.rs:1-7 | Where the whole graph has no cycle either, a part closed under inputs evaluates as the whole does |
| Soundness.ConeIsPart | crates/provably-core/src/lib.rs:115-125 | What the output depends on is such a part |
| Protocol.RunKeepsInv | tlsn/notary/src/main.rs:181-215 | In every run all signed sessions are with the upstream, and each decision is the buyer's own against the sessions signed before it |
| Protocol.AcceptedReceiptIsBound | crates/provably-verifier/src/lib.rs:55-100 | An accepted receipt is for the pinned harness and the payment, and all its inputs resolve |
| Protocol.AcceptedLegsAreWitnessed | examples/buyer/src/main.rs:146-215 | Every leg of an accepted receipt is of an earlier session with the upstream, which is the one host the buyer allows |
| Protocol.AcceptedOutputAnswersRequest | crates/provably-verifier/src/lib.rs:77-90 | In the indexed graph the accepted output depends on a leg, and every leg it depends on is of an earlier session in which the request body the notary saw (not always the one sent, see the next rows) is the buyer's, if hashing tells the values judged apart |
| Protocol.AcceptedRequestIsRealIff | crates/provably-verifier/src/lib.rs:28-31 | In any session behind such a leg the request really sent is the buyer's if what was hidden left its body as it was, and, where it is not chunked or its chunks are told apart, only if |
| Protocol.AcceptedOutputWasAsked | crates/provably-verifier/src/lib.rs:28-31 | Each such leg with a session that hid nothing of the kind is of a session in which the buyer's request was really sent |
| Exchanges.OtherQuestionInAnyRun | crates/provably-verifier/src/lib.rs:28-31 | Without that condition: in any run, for any request of the buyer, the upstream can be asked another that ends in a blank line and it, and the verdict on the answer is accepted |
| Protocol.AcceptedDeliveryIsGenuine | examples/buyer/src/main.rs:146-227 | If what the output depends on in the graph the buyer re-ran has no cycle and hashing tells the values judged apart, the accepted body is its evaluation over the response bodies the notary saw, ids repeated or not |
| Protocol.AcceptedDeliveryRunsIndex | examples/buyer/src/main.rs:146-227 | Under the same hypotheses for what the output depends on in the id index: it gives the body if those nodes re-run to their digests, which unique ids ensure, and which holds iff their inputs were shipped and they run as they commit |
| Protocol.AcceptedDeliveryIsReal | tlsn/notary/src/main.rs:192-212 | If moreover behind each leg the output depends on is a session whose prover left the body of the reply as it was, the body is the evaluation over the bodies the upstream really sent |
| Protocol.AcceptedReplyIsRealIff | tlsn/notary/src/main.rs:192-212 | The condition is exact for every session behind every leg: the body the leg stands for was really sent iff what was hidden left it as it was, for replies that are not chunked or whose chunks are told apart |
| Exchanges.AnyExchangeInAnyRun | tlsn/reseller/src/main.rs:199-300 | In any run, a delivery made in either mode with any answer from any notarised exchange is accepted iff the buyer pins key and host, its request has the digest of the request seen, and the bytes shipped have the digest of the reply seen |
| Exchanges.HiddenReplyInAnyRun | tlsn/notary/src/main.rs:192-212 | In any run a prover may hide any ranges of any reply: the verdict on what is left is accepted, and it is the real one for every judge if hiding left the body as it was, and, where chunks are told apart, only if |
| Exchanges.PlainReplyKeptIff | tlsn/notary/src/main.rs:243-255 | For a printed reply that is not chunked and all ranges: its content is seen iff the header end is shown and, where there is content, no chunked declaration appears and no content is hidden but zeros |
| Exchanges.ChunkedReplyKeptIff | tlsn/notary/src/main.rs:243-286 | For a printed chunked reply whose chunks are told apart: its payload is seen iff it is still seen to be chunked and no chunk data is hidden but zeros |
| Exchanges.HiddenBytesCountAsZero | tlsn/notary/src/main.rs:192-212 | One window of a plain reply's content hidden: the verdict on the content with zeros there is accepted in any run |
| Exchanges.HiddenWindowIff | tlsn/notary/src/main.rs:192-212 | It is the real verdict for every judge iff the window held zeros |
| RepeatedIds.DoubledIsAccepted | crates/provably-verifier/src/lib.rs:60-123 | A receipt with a repeated id is accepted with a yes although the indexed output depends only on a leg that is a no and evaluates to no; re-running the indexed nodes it depends on exposes it iff yes and no have different digests |
| RepeatedIds.DoubledInAnyRun | examples/buyer/src/main.rs:158-215 | The same in any run, from any two notarised exchanges of which the first shows the buyer's request |
| RepeatedIds.RepeatedIdInAnyRun | examples/buyer/src/main.rs:158-215 | So it is even from two honest exchanges, on the upstream's real answers |
| Exchanges.RequestRead | tlsn/notary/src/main.rs:193-208 | From its partial view the notary reads the request's body, and method and path iff the key first occurs after them |
| Exchanges.ReplyRead | tlsn/notary/src/main.rs:193-210 | The notary reads a reply's body and status in either framing |
| Exchanges.HonestSessionIsSigned | tlsn/notary/src/main.rs:192-228 | The honest exchange is notarised with the digests of the bodies as buyer and client know them, with method and path iff the key first occurs after them, and the prover reads the attestation back |
| Exchanges.ExchangeInAnyRun | tlsn/reseller/src/main.rs:199-300 | In any run a notarised exchange, once delivered, is accepted iff the seller is honest or its substitute has the real digest |
| Exchanges.HonestDeliveryIsTheVerdict | tlsn/reseller/src/main.rs:253-290 | The honest run meets every condition of the main results but collision-freeness: pinned key, unique ids, no cycle, both bodies left as they were; it delivers the transform of the real answer |
| Exchanges.KeptExchangeInAnyRun | tlsn/reseller/src/main.rs:253-290 | So does any exchange whose prover left both bodies as they were |

## Left out

- TLS, TLSNotary, sockets, HTTP client and server, environment: a session is what the proving layer reports, and a delivery is headers and a body.
- Payment, wallet and the 402 challenge: only the payment reference is kept.
- `VerifyError` texts, `Display`, `advertise`, `parse_headers`, the `Prover` and `Attester` traits, printing: they would only add easy members.
- Check names are data (`Verifier.CheckName`), not the formatted text.
- Json.FromSlice: takes strings that are not UTF-8 and values nested over 128 levels, which the library refuses in what it reads; and inside an attestation's `proof` object, whose unknown fields the library stores, it is as lenient as elsewhere. It reads more than the library, so no safety result is lost.
- Http.RequestLine: keeps the bytes of a word that is not UTF-8, where the source puts replacement characters.
- Interim responses, pipelined messages and compressed bodies: outside the stated body-digest contract (tlsn/notary/src/main.rs:198-203).
- Disclosure.RangesPartition: says nothing of whether the proving library accepts an empty range, which is foreign code.
- NotaryService.NotarizeSession and Reseller.Respond are functions: the steps they take change no state but the socket.
- Freshness: the program lets a leg back several receipts and does not look at the response status, and no theorem says otherwise.
