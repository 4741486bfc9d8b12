/** What an accepted attestation guarantees to the readers of its journal. */
module Guarantees {
  import opened Basics
  import opened Errors
  import opened Crypto
  import opened X509
  import opened ChainProperties
  import opened Journal
  import opened Attestation
  import opened Verifier
  import Abi
  import Cose
  import PathDigest

  /** Every untrusted certificate above the enclave's own is a CA, and the enclave's own, if untrusted, is not. */
  lemma IssuersAreCas(env: Environment, input: VerifierInput, i: nat)
    requires Verify(env, input).Ok?
    requires input.trustedCertsPrefixLen <= i < |ChainOf(env, input).certs|
    ensures IsCa(ChainOf(env, input).certs[i].cert) <==> i < |ChainOf(env, input).certs| - 1
  {
    VerifyParts(env, input);
    assert |ChainOf(env, input).Ders()| >= 1;
    JournalInvariants(env, input);
    UntrustedRole(env.crypto, ChainOf(env, input), input.trustedCertsPrefixLen, ReportOf(env, input).doc.timestamp, i);
  }

  /** The shape of every journal of an accepted input. */
  ghost predicate WellShaped(j: VerifierJournal) {
    && j.result == Success
    && j.timestamp != 0
    && j.moduleId != []
    && |j.certs| == |j.certExpiries| >= 2
    && 1 <= |j.pcrs| <= 32
    && (forall i :: 0 <= i < |j.pcrs| ==> j.pcrs[i].index <= 31)
    && (forall i, k :: 0 <= i < k < |j.pcrs| ==> j.pcrs[i].index < j.pcrs[k].index)
    && (exists i :: 0 <= i < |j.pcrs| && !j.pcrs[i].value.IsZero())
    && |j.userData| <= 512 && |j.nonce| <= 512 && |j.publicKey| <= 1024
  }

  lemma PcrsWellShaped(pcrs: map<u64, Measurement>)
    requires IndicesInRange(pcrs) && SomeNonZero(pcrs)
    ensures var ps := PcrEntries(pcrs);
            && 1 <= |ps| <= 32
            && (forall i :: 0 <= i < |ps| ==> ps[i].index <= 31)
            && (exists i :: 0 <= i < |ps| && !ps[i].value.IsZero())
  {
    var ps := PcrEntries(pcrs);
    PcrEntriesExact(pcrs);
    FewSmallIndices(pcrs.Keys);
    var k :| k in pcrs && !AllZero(pcrs[k]);
    var i :| 0 <= i < |ps| && ps[i].index == k;
    Bytes48RoundTrip(pcrs[k], ps[i].value);
  }

  /**
   * Every accepted input yields a well-shaped journal with one digest and one expiry for each certificate of the
   * bundle and one for the enclave's own, and with the document's time, prefix and module.
   */
  lemma JournalInvariants(env: Environment, input: VerifierInput)
    requires Verify(env, input).Ok?
    ensures var j, doc := Verify(env, input).value, ReportOf(env, input).doc;
            && WellShaped(j)
            && |j.certs| == |doc.cabundle| + 1
            && j.trustedCertsPrefixLen == input.trustedCertsPrefixLen <= |j.certs|
            && j.timestamp == doc.timestamp
            && j.moduleId == doc.moduleId
  {
    var report, chain := VerifySound(env, input);
    PcrsWellShaped(report.doc.pcrs);
    PcrEntriesExact(report.doc.pcrs);
    assert |chain.Ders()| == |chain.certs|;
  }

  predicate IsOptional(bytes: seq<byte>, field: Option<seq<byte>>) {
    if field.None? then bytes == [] else bytes == field.value
  }

  /**
   * Every field of the journal of an accepted input reports what the document and the certificates say: the path
   * digests and expiries of the bundle followed by the enclave's certificate, the optional fields with absence shown
   * as empty, and the measurements by ascending index.
   */
  lemma JournalFaithful(env: Environment, input: VerifierInput)
    requires Verify(env, input).Ok?
    ensures var j, doc := Verify(env, input).value, ReportOf(env, input).doc;
            var ders := CertChainDer(doc);
            && ders[..|doc.cabundle|] == doc.cabundle && ders[|doc.cabundle|] == doc.certificate
            && j.certs == PathDigest.PathDigests(env.crypto.sha256, ders)
            && |j.certs| == |ders| && j.certs[0] == env.crypto.sha256(ders[0])
            && (forall i :: 0 < i < |ders| ==>
                              j.certs[i] == env.crypto.sha256(j.certs[i - 1] + env.crypto.sha256(ders[i])))
            && |j.certExpiries| == |ders|
            && (forall i :: 0 <= i < |ders| ==>
                              && env.derParser(ders[i]).Some? && env.derParser(ders[i]).value.1 == []
                              && env.derParser(ders[i]).value.0.notAfter == j.certExpiries[i])
            && IsOptional(j.userData, doc.userData)
            && IsOptional(j.nonce, doc.nonce)
            && IsOptional(j.publicKey, doc.publicKey)
            && (forall k :: k in doc.pcrs <==> exists i :: 0 <= i < |j.pcrs| && j.pcrs[i].index == k)
            && (forall i :: 0 <= i < |j.pcrs| ==>
                              && j.pcrs[i].index in doc.pcrs
                              && j.pcrs[i].value.first == doc.pcrs[j.pcrs[i].index][..32]
                              && j.pcrs[i].value.second == doc.pcrs[j.pcrs[i].index][32..])
  {
    var j, doc := Verify(env, input).value, ReportOf(env, input).doc;
    VerifyParts(env, input);
    var chain, ders := ChainOf(env, input), CertChainDer(doc);
    ChainResultExact(env.crypto, chain, input.trustedCertsPrefixLen, doc.timestamp);
    PathDigest.PathDigestsAccumulate(env.crypto.sha256, ders);
    PcrEntriesExact(doc.pcrs);
    assert |chain.Ders()| == |chain.certs|;
    forall i | 0 <= i < |ders|
      ensures env.derParser(ders[i]) == Some((chain.certs[i].cert, []))
    {
      assert chain.Ders()[i] == chain.certs[i].der;
    }
  }

  /** The public values of an accepted input have a size that only the chain and the module name can enlarge. */
  lemma PublicValuesBound(env: Environment, input: VerifierInput)
    requires Verify(env, input).Ok?
    ensures var j := Verify(env, input).value;
            |EncodeJournal(j)| <= 5696 + 64 * |j.certs| + Abi.PadTo32(|j.moduleId|)
  {
    var j := Verify(env, input).value;
    JournalInvariants(env, input);
    JournalLengthExact(j);
    PaddingBound(|j.userData|, 512);
    PaddingBound(|j.nonce|, 512);
    PaddingBound(|j.publicKey|, 1024);
  }

  lemma PaddingBound(n: nat, limit: nat)
    requires n <= limit && limit % 32 == 0
    ensures Abi.PadTo32(n) <= limit
  {
  }

  /** Trusting a longer prefix never rejects an accepted report, and changes only the recorded prefix. */
  lemma LongerPrefixAccepted(env: Environment, input: VerifierInput, prefix: u8)
    requires Verify(env, input).Ok?
    requires input.trustedCertsPrefixLen <= prefix <= |ChainOf(env, input).certs|
    ensures Verify(env, input.(trustedCertsPrefixLen := prefix))
            == Ok(Verify(env, input).value.(trustedCertsPrefixLen := prefix))
  {
    VerifyParts(env, input);
    PrefixMonotone(env.crypto, ChainOf(env, input), input.trustedCertsPrefixLen, prefix,
                   ReportOf(env, input).doc.timestamp);
    VerifyWithPrefix(env, input, input.trustedCertsPrefixLen);
    VerifyWithPrefix(env, input, prefix);
  }

  /** Equal digest lists mean equal certificate chains, hence equal expiries, or an exhibited collision. */
  lemma JournalBindsChain(env: Environment, a: VerifierInput, b: VerifierInput)
    requires Verify(env, a).Ok? && Verify(env, b).Ok?
    requires Verify(env, a).value.certs == Verify(env, b).value.certs
    ensures var x, y := CertChainDer(ReportOf(env, a).doc), CertChainDer(ReportOf(env, b).doc);
            && |x| == |y|
            && var collision := PathDigest.FindCollision(env.crypto.sha256, x, |x| - 1, y, |y| - 1);
               && PathDigest.Exhibits(env.crypto.sha256, x, |x| - 1, y, |y| - 1, collision)
               && (collision.None? ==>
                     && x == y
                     && Verify(env, a).value.certExpiries == Verify(env, b).value.certExpiries)
  {
    var ra, ca := VerifySound(env, a);
    var rb, cb := VerifySound(env, b);
    PathDigest.DigestVectorBinding(env.crypto.sha256, ca.Ders(), cb.Ders());
    if ca.Ders() == cb.Ders() {
      FromDerExact(env.derParser, ca.Ders(), ca);
      FromDerExact(env.derParser, ca.Ders(), cb);
    }
  }

  /** The signed bytes fix the journal: accepted reports with the same to-be-signed bytes and prefix share it. */
  lemma SignedBytesFixJournal(env: Environment, a: VerifierInput, b: VerifierInput)
    requires Verify(env, a).Ok? && Verify(env, b).Ok?
    requires a.trustedCertsPrefixLen == b.trustedCertsPrefixLen
    requires var x, y := ReportOf(env, a).cose, ReportOf(env, b).cose;
             Cose.SigStructure(x.protected, x.payload) == Cose.SigStructure(y.protected, y.payload)
    ensures Verify(env, a) == Verify(env, b)
  {
    var x, y := ReportOf(env, a).cose, ReportOf(env, b).cose;
    Cose.SigStructureInjective(x.protected, x.payload, y.protected, y.payload, [], []);
    var ra, ca := VerifySound(env, a);
    var rb, cb := VerifySound(env, b);
    FromDerExact(env.derParser, CertChainDer(ra.doc), ca);
    FromDerExact(env.derParser, CertChainDer(rb.doc), cb);
  }

  // ----- Rejection -----

  /** The stages of verification, in order. */
  datatype Stage = Parsing | Content | CertificateParsing | ChainValidation | PayloadSignature

  function StageRank(s: Stage): nat {
    match s
    case Parsing => 0
    case Content => 1
    case CertificateParsing => 2
    case ChainValidation => 3
    case PayloadSignature => 4
  }

  /** The stage that an error is reported by. */
  function StageOf(e: VerifierError): Stage {
    match e
    case Cbor(_) => Parsing
    case CoseFormat(_) => Parsing
    case AttestationFormat => Parsing
    case ContentValidation(_) => Content
    case X509Parse(_) => CertificateParsing
    case CertificateVerification(_) => ChainValidation
    case CertificateSignature(_) => ChainValidation
    case CoseSignature(_) => PayloadSignature
  }

  ghost predicate Parses(env: Environment, input: VerifierInput) {
    ParseReport(env.docParser, input.attestationReport).Ok?
  }

  function ParsedReport(env: Environment, input: VerifierInput): AttestationReport
    requires Parses(env, input)
  {
    ParseReport(env.docParser, input.attestationReport).value
  }

  function ParsedChain(env: Environment, input: VerifierInput): Result<CertChain, VerifierError>
    requires Parses(env, input)
  {
    FromDer(env.derParser, CertChainDer(ParsedReport(env, input).doc))
  }

  /** What a stage demands, of an input that gets to it. */
  ghost predicate StagePasses(env: Environment, input: VerifierInput, s: Stage) {
    match s
    case Parsing => Parses(env, input)
    case Content => Parses(env, input) ==> ContentOk(ParsedReport(env, input).doc)
    case CertificateParsing => Parses(env, input) ==> ParsedChain(env, input).Ok?
    case ChainValidation =>
      Parses(env, input) && ParsedChain(env, input).Ok? ==>
        Accepts(env.crypto, ParsedChain(env, input).value.certs,
                input.trustedCertsPrefixLen, ParsedReport(env, input).doc.timestamp)
    case PayloadSignature =>
      Parses(env, input) && ParsedChain(env, input).Ok? && ParsedChain(env, input).value.certs != [] ==>
        PayloadSigned(env.crypto, ParsedReport(env, input).cose, ParsedChain(env, input).value)
  }

  lemma ParseErrorsAreParsing(parser: DocParser, data: seq<byte>)
    requires ParseReport(parser, data).Err?
    ensures StageOf(ParseReport(parser, data).error) == Parsing
  {
  }

  lemma DerErrorsAreCertificateParsing(parser: DerParser, ders: seq<seq<byte>>)
    requires FromDer(parser, ders).Err?
    ensures StageOf(FromDer(parser, ders).error) == CertificateParsing
  {
  }

  lemma ChainErrorsAreChainValidation(p: Primitives, chain: CertChain, prefix: nat, timestampMs: u64)
    requires ChainResult(p, chain, prefix, timestampMs).Err?
    ensures StageOf(ChainResult(p, chain, prefix, timestampMs).error) == ChainValidation
    ensures !Accepts(p, chain.certs, prefix, timestampMs)
  {
    ChainResultExact(p, chain, prefix, timestampMs);
  }

  /** The last two stages, for an input that gets to them. */
  lemma LateErrors(env: Environment, input: VerifierInput)
    requires Parses(env, input) && ContentOk(ParsedReport(env, input).doc) && ParsedChain(env, input).Ok?
    requires Verify(env, input).Err?
    ensures var s := StageOf(Verify(env, input).error);
            && (s == ChainValidation || s == PayloadSignature)
            && !StagePasses(env, input, s)
            && (s == PayloadSignature ==> StagePasses(env, input, ChainValidation))
  {
    hide ParseReport, ContentFault, ContentOk, FromDer, ChainResult, Accepts;
    var report, chain := ParsedReport(env, input), ParsedChain(env, input).value;
    ContentFaultExact(report.doc);
    FromDerExact(env.derParser, CertChainDer(report.doc), chain);
    assert |chain.Ders()| == |chain.certs|;
    var r := ChainResult(env.crypto, chain, input.trustedCertsPrefixLen, report.doc.timestamp);
    if r.Err? {
      ChainErrorsAreChainValidation(env.crypto, chain, input.trustedCertsPrefixLen, report.doc.timestamp);
    } else {
      ChainResultExact(env.crypto, chain, input.trustedCertsPrefixLen, report.doc.timestamp);
    }
  }

  /** An error names the first stage, in the order of the code, that the input does not pass. */
  lemma ErrorNamesFirstStage(env: Environment, input: VerifierInput, earlier: Stage)
    requires Verify(env, input).Err?
    ensures !StagePasses(env, input, StageOf(Verify(env, input).error))
    ensures StageRank(earlier) < StageRank(StageOf(Verify(env, input).error)) ==>
              StagePasses(env, input, earlier)
  {
    hide ParseReport, ContentFault, ContentOk, FromDer, ChainResult, Accepts, PayloadSigned, CoseSignatureFaultOf;
    if !Parses(env, input) {
      ParseErrorsAreParsing(env.docParser, input.attestationReport);
    } else {
      ContentFaultExact(ParsedReport(env, input).doc);
      if ContentOk(ParsedReport(env, input).doc) && ParsedChain(env, input).Ok? {
        LateErrors(env, input);
      } else if ParsedChain(env, input).Err? {
        DerErrorsAreCertificateParsing(env.derParser, CertChainDer(ParsedReport(env, input).doc));
      }
    }
  }
}
