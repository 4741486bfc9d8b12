/** End-to-end verification of an attestation report, and what an accepted report guarantees. */
module Verifier {
  import opened Basics
  import opened Errors
  import opened Crypto
  import opened X509
  import opened ChainProperties
  import opened Journal
  import opened Attestation
  import Cose
  import PathDigest

  /** Everything that verification takes as given. */
  datatype Environment = Environment(crypto: Primitives, derParser: DerParser, docParser: DocParser)

  // ----- The operation -----

  /** `verify_cose_signature`. */
  function CoseSignatureFaultOf(p: Primitives, publicKey: seq<byte>, message: seq<byte>, signature: seq<byte>)
    : (r: Option<CoseSignatureFault>)
    ensures r.None? <==> SignsRaw(p, publicKey, message, signature)
  {
    match p.decodeKey(publicKey)
    case None => Some(BadLeafKey)
    case Some(key) =>
      match p.decodeRawSignature(signature)
      case None => Some(BadCoseSignature)
      case Some(s) => if p.ecdsaVerify(key, message, s) then None else Some(CoseSignatureRejected)
  }

  function OptionalBytes(field: Option<seq<byte>>): seq<byte> {
    if field.Some? then field.value else []
  }

  function JournalOf(input: VerifierInput, doc: AttestationDocument, output: ChainOutput): VerifierJournal {
    VerifierJournal(
      Success, input.trustedCertsPrefixLen, doc.timestamp, output.digests, output.expiries,
      OptionalBytes(doc.userData), OptionalBytes(doc.nonce), OptionalBytes(doc.publicKey),
      PcrEntries(doc.pcrs), doc.moduleId)
  }

  /** What `AttestationVerifier::verify` returns. */
  function Verify(env: Environment, input: VerifierInput): Result<VerifierJournal, VerifierError> {
    var report :- ParseReport(env.docParser, input.attestationReport);
    match ContentFault(report.doc)
    case Some(c) => Err(ContentValidation(c))
    case None =>
      var chain :- FromDer(env.derParser, CertChainDer(report.doc));
      var output :- ChainResult(env.crypto, chain, input.trustedCertsPrefixLen, report.doc.timestamp);
      var leafKey :- LeafPublicKey(chain);
      var tbs := Cose.SigStructure(report.cose.protected, report.cose.payload);
      match CoseSignatureFaultOf(env.crypto, leafKey, tbs, report.cose.signature)
      case Some(fault) => Err(CoseSignature(fault))
      case None => Ok(JournalOf(input, report.doc, output))
  }

  /** The same composition over the imperative parts. */
  method RunVerify(env: Environment, input: VerifierInput) returns (r: Result<VerifierJournal, VerifierError>)
    ensures r == Verify(env, input)
  {
    var cose :- Cose.FromBytes(input.attestationReport);
    var parsed := env.docParser(cose.payload);
    if parsed.None? {
      return Err(AttestationFormat);
    }
    var doc := parsed.value;
    var fault := ContentFault(doc);
    if fault.Some? {
      return Err(ContentValidation(fault.value));
    }
    var chain :- FromDer(env.derParser, CertChainDer(doc));
    var output :- VerifyChain(env.crypto, chain, input.trustedCertsPrefixLen, doc.timestamp);
    var leafKey :- LeafPublicKey(chain);
    var tbs := Cose.WriteSigStructure(cose);
    var signatureFault := CoseSignatureFaultOf(env.crypto, leafKey, tbs, cose.signature);
    if signatureFault.Some? {
      return Err(CoseSignature(signatureFault.value));
    }
    return Ok(JournalOf(input, doc, output));
  }

  // ----- Endorsement -----

  /** A derivation of trust in a certificate's key, from a certificate that is trusted as given. */
  datatype Endorsement = Boundary(cert: Certificate) | Issued(issuer: Endorsement, cert: Certificate)

  /** Every certificate after the first names the one before it as issuer and is signed with its key. */
  predicate Genuine(p: Primitives, e: Endorsement) {
    match e
    case Boundary(_) => true
    case Issued(issuer, cert) =>
      && Genuine(p, issuer)
      && cert.issuer == issuer.cert.subject
      && SignsDer(p, issuer.cert.publicKey, cert.tbs, cert.signature)
  }

  /** The derivation that certificates `first` to `last` of a chain spell out. */
  function EndorsementOf(certs: seq<ParsedCert>, first: nat, last: nat): (e: Endorsement)
    requires first <= last < |certs|
    ensures e.cert == certs[last].cert
    decreases last
  {
    if last == first then Boundary(certs[first].cert)
    else Issued(EndorsementOf(certs, first, last - 1), certs[last].cert)
  }

  /** The part of validation that endorsement is made of. */
  predicate Linked(p: Primitives, certs: seq<ParsedCert>, i: nat)
    requires 0 < i < |certs|
  {
    && certs[i].cert.issuer == certs[i - 1].cert.subject
    && SignsDer(p, certs[i - 1].cert.publicKey, certs[i].cert.tbs, certs[i].cert.signature)
  }

  lemma {:induction false} GenuineIsLinkwise(p: Primitives, certs: seq<ParsedCert>, first: nat, last: nat)
    requires first <= last < |certs|
    ensures Genuine(p, EndorsementOf(certs, first, last))
            <==> forall i :: first < i <= last ==> Linked(p, certs, i)
    decreases last
  {
    if last > first {
      GenuineIsLinkwise(p, certs, first, last - 1);
      assert Genuine(p, EndorsementOf(certs, first, last))
        <==> Genuine(p, EndorsementOf(certs, first, last - 1)) && Linked(p, certs, last);
    }
  }

  /** What is required of an untrusted certificate by itself and of its place in the chain, signatures apart. */
  predicate Qualified(certs: seq<ParsedCert>, timestampMs: u64, i: nat)
    requires i < |certs|
  {
    && FitsRole(certs[i].cert, IsLeaf(|certs|, i))
    && ValidAt(certs[i].cert, timestampMs)
    && (i > 0 ==> !certs[i - 1].cert.basicConstraints.Malformed? && PathLengthTest(certs, i))
  }

  /** The certificates of a chain are endorsed from the trust boundary on, or from a root that vouches for itself. */
  ghost predicate Endorsed(p: Primitives, certs: seq<ParsedCert>, prefix: nat, timestampMs: u64)
    requires certs != []
  {
    && prefix <= |certs|
    && (forall i :: 0 <= i < |certs| ==> TrustInvariant(certs, i))
    && (forall i :: prefix <= i < |certs| ==> Qualified(certs, timestampMs, i))
    && Genuine(p, EndorsementOf(certs, BoundaryIndex(prefix), |certs| - 1))
    && (prefix == 0 ==> SignsDer(p, certs[0].cert.publicKey, certs[0].cert.tbs, certs[0].cert.signature))
  }

  /** A chain is accepted exactly when its certificates are endorsed. */
  lemma AcceptsIsEndorsed(p: Primitives, certs: seq<ParsedCert>, prefix: nat, timestampMs: u64)
    requires certs != []
    ensures Accepts(p, certs, prefix, timestampMs) <==> Endorsed(p, certs, prefix, timestampMs)
  {
    if prefix <= |certs| {
      var s, last := BoundaryIndex(prefix), |certs| - 1;
      GenuineIsLinkwise(p, certs, s, last);
      if Accepts(p, certs, prefix, timestampMs) {
        forall i | prefix <= i < |certs|
          ensures Qualified(certs, timestampMs, i)
          ensures i > 0 ==> Linked(p, certs, i)
        {
          assert Validated(p, certs, timestampMs, i);
        }
        assert prefix == 0 ==> Validated(p, certs, timestampMs, 0);
      } else if Endorsed(p, certs, prefix, timestampMs) {
        forall i | prefix <= i < |certs|
          ensures Validated(p, certs, timestampMs, i)
        {
          assert Qualified(certs, timestampMs, i);
          assert i > 0 ==> Linked(p, certs, i);
        }
      }
    }
  }

  // ----- Acceptance, exactly -----

  /** The report of an accepted input. */
  function ReportOf(env: Environment, input: VerifierInput): AttestationReport
    requires Verify(env, input).Ok?
  {
    ParseReport(env.docParser, input.attestationReport).value
  }

  /** The certificate chain of an accepted input. */
  function ChainOf(env: Environment, input: VerifierInput): CertChain
    requires Verify(env, input).Ok?
  {
    FromDer(env.derParser, CertChainDer(ReportOf(env, input).doc)).value
  }

  /** The outcome of chain validation for the chain of an accepted input, under any trusted prefix. */
  function ChainResultOf(env: Environment, input: VerifierInput, prefix: nat): Result<ChainOutput, VerifierError>
    requires Verify(env, input).Ok?
  {
    ChainResult(env.crypto, ChainOf(env, input), prefix, ReportOf(env, input).doc.timestamp)
  }

  /** The parts of an accepted input. */
  lemma VerifyParts(env: Environment, input: VerifierInput)
    requires Verify(env, input).Ok?
    ensures ParsedBy(env.derParser, ChainOf(env, input))
    ensures ChainOf(env, input).Ders() == CertChainDer(ReportOf(env, input).doc)
    ensures ChainResultOf(env, input, input.trustedCertsPrefixLen).Ok?
  {
    FromDerExact(env.derParser, CertChainDer(ReportOf(env, input).doc), ChainOf(env, input));
  }

  /** With another trusted prefix, everything but chain validation goes as before. */
  lemma VerifyWithPrefix(env: Environment, input: VerifierInput, prefix: u8)
    requires Verify(env, input).Ok?
    ensures Verify(env, input.(trustedCertsPrefixLen := prefix))
            == match ChainResultOf(env, input, prefix)
               case Ok(output) =>
                 Ok(JournalOf(input.(trustedCertsPrefixLen := prefix), ReportOf(env, input).doc, output))
               case Err(e) => Err(e)
  {
  }

  predicate ExpiriesFit(chain: CertChain) {
    forall i :: 0 <= i < |chain.certs| ==> chain.certs[i].cert.notAfter >= 0
  }

  function OutputOf(p: Primitives, chain: CertChain): ChainOutput
    requires ExpiriesFit(chain)
  {
    ChainOutput(PathDigest.PathDigests(p.sha256, chain.Ders()), chain.Expiries())
  }

  /** The key of the last certificate signed the envelope's protected header and payload. */
  predicate PayloadSigned(p: Primitives, cose: Cose.CoseSign1, chain: CertChain)
    requires chain.certs != []
  {
    SignsRaw(p, chain.certs[|chain.certs| - 1].cert.publicKey,
             Cose.SigStructure(cose.protected, cose.payload), cose.signature)
  }

  /** Everything that makes a report with this chain trustworthy for this input. */
  ghost predicate Attested(env: Environment, input: VerifierInput, report: AttestationReport, chain: CertChain) {
    && Cose.ParseCose(input.attestationReport) == Ok(report.cose)
    && env.docParser(report.cose.payload) == Some(report.doc)
    && ContentOk(report.doc)
    && chain.certs != [] && chain.Ders() == CertChainDer(report.doc)
    && ParsedBy(env.derParser, chain)
    && Endorsed(env.crypto, chain.certs, input.trustedCertsPrefixLen, report.doc.timestamp)
    && PayloadSigned(env.crypto, report.cose, chain)
  }

  lemma ChainResultIsOutput(p: Primitives, chain: CertChain, prefix: nat, timestampMs: u64)
    requires ChainResult(p, chain, prefix, timestampMs).Ok?
    ensures ExpiriesFit(chain)
    ensures ChainResult(p, chain, prefix, timestampMs) == Ok(OutputOf(p, chain))
  {
    ChainResultExact(p, chain, prefix, timestampMs);
    assert forall i :: 0 <= i < |chain.certs| ==> TrustInvariant(chain.certs, i);
    assert ChainResult(p, chain, prefix, timestampMs).value.expiries == chain.Expiries();
  }

  /** An accepted report is attested, and the journal says what its document and chain say. */
  lemma VerifySound(env: Environment, input: VerifierInput) returns (report: AttestationReport, chain: CertChain)
    requires Verify(env, input).Ok?
    ensures Attested(env, input, report, chain)
    ensures ExpiriesFit(chain)
    ensures ChainResult(env.crypto, chain, input.trustedCertsPrefixLen, report.doc.timestamp)
            == Ok(OutputOf(env.crypto, chain))
    ensures Verify(env, input) == Ok(JournalOf(input, report.doc, OutputOf(env.crypto, chain)))
  {
    report := ReportOf(env, input);
    var ders := CertChainDer(report.doc);
    chain := FromDer(env.derParser, ders).value;
    ContentFaultExact(report.doc);
    FromDerExact(env.derParser, ders, chain);
    ChainResultIsOutput(env.crypto, chain, input.trustedCertsPrefixLen, report.doc.timestamp);
    ChainResultExact(env.crypto, chain, input.trustedCertsPrefixLen, report.doc.timestamp);
    AcceptsIsEndorsed(env.crypto, chain.certs, input.trustedCertsPrefixLen, report.doc.timestamp);
  }

  /** Conversely, every attested report is accepted. */
  lemma VerifyComplete(env: Environment, input: VerifierInput, report: AttestationReport, chain: CertChain)
    requires Attested(env, input, report, chain)
    ensures ExpiriesFit(chain)
    ensures Verify(env, input) == Ok(JournalOf(input, report.doc, OutputOf(env.crypto, chain)))
  {
    ContentFaultExact(report.doc);
    FromDerExact(env.derParser, CertChainDer(report.doc), chain);
    AcceptsIsEndorsed(env.crypto, chain.certs, input.trustedCertsPrefixLen, report.doc.timestamp);
    ChainResultExact(env.crypto, chain, input.trustedCertsPrefixLen, report.doc.timestamp);
    ChainResultIsOutput(env.crypto, chain, input.trustedCertsPrefixLen, report.doc.timestamp);
  }

  /** Verification succeeds exactly on attested reports. */
  lemma VerifyExact(env: Environment, input: VerifierInput)
    ensures Verify(env, input).Ok? <==> exists report, chain :: Attested(env, input, report, chain)
  {
    if Verify(env, input).Ok? {
      var report, chain := VerifySound(env, input);
    }
    if report, chain :| Attested(env, input, report, chain) {
      VerifyComplete(env, input, report, chain);
    }
  }
}
