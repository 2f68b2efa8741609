/** One notary session: from what the TLS layer witnessed to a signed attestation. */
module NotaryService {
  import opened Bytes
  import opened Core
  import opened Http

  /** What the proving layer hands the notary for one session.  Sent and received bytes are as
      disclosed; the time is the connection's, not the notary's. */
  datatype Witness = Witness(
    proxyMode: bool,
    identityRequested: bool,
    serverName: Option<bytes>,
    transcript: Option<(bytes, bytes)>,
    time: bytes)

  datatype SessionError = MpcRejected | IdentityNotRequested | NoServerName | NoTranscript | WrongServer

  /** The claim made about a disclosed exchange with `host`. */
  function ClaimFor(c: Crypto, host: bytes, sent: bytes, received: bytes, time: bytes): LegClaim {
    var line := RequestLine(sent);
    LegClaim(host, line.0, line.1, c.Sha256Hex(DecodedBody(sent)), c.Sha256Hex(DecodedBody(received)),
             StatusCode(received), time)
  }

  /** `notarize_session`: every early return, then the claim, then the signature. */
  function NotarizeSession(c: Crypto, n: Notary, upstream: bytes, w: Witness): (r: Result<LegAttestation, SessionError>)
    ensures r.Ok? <==>
            w.proxyMode && w.identityRequested && w.serverName == Some(upstream) && w.transcript.Some?
    ensures r.Ok? ==>
              r.value == n.Attest(ClaimFor(c, upstream, w.transcript.value.0, w.transcript.value.1, w.time))
    ensures r == Err(MpcRejected) <==> !w.proxyMode
    ensures r == Err(IdentityNotRequested) <==> w.proxyMode && !w.identityRequested
    ensures r == Err(NoServerName) <==> w.proxyMode && w.identityRequested && w.serverName.None?
    ensures r == Err(NoTranscript) <==>
            w.proxyMode && w.identityRequested && w.serverName.Some? && w.transcript.None?
    ensures r == Err(WrongServer) <==>
            w.proxyMode && w.identityRequested && w.serverName.Some? && w.transcript.Some?
            && w.serverName.value != upstream
  {
    if !w.proxyMode then Err(MpcRejected)
    else if !w.identityRequested then Err(IdentityNotRequested)
    else if w.serverName.None? then Err(NoServerName)
    else if w.transcript.None? then Err(NoTranscript)
    else if w.serverName.value != upstream then Err(WrongServer)
    else Ok(n.Attest(ClaimFor(c, w.serverName.value, w.transcript.value.0, w.transcript.value.1, w.time)))
  }
}
