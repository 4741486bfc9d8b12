/**
 * What certificate checks, chain validation and verification return, spelled out in the fields of certificates and
 * documents, with every constant written out.
 */
module Outcomes {
  import opened Basics
  import opened Errors
  import opened Crypto
  import opened X509
  import opened Journal
  import opened Attestation
  import opened Verifier
  import Cose
  import PathDigest

  // ----- Parsing a chain -----

  /** The first certificate that is malformed or has trailing data is the one reported. */
  lemma ParsingOutcome(parser: DerParser, ders: seq<seq<byte>>, i: nat)
    requires i <= |ders|
    requires forall j :: 0 <= j < i ==> parser(ders[j]).Some? && parser(ders[j]).value.1 == []
    ensures ders == [] ==> FromDer(parser, ders) == Err(X509Parse(EmptyChain))
    ensures i < |ders| && parser(ders[i]).None? ==> FromDer(parser, ders) == Err(X509Parse(MalformedDer(i)))
    ensures i < |ders| && parser(ders[i]).Some? && parser(ders[i]).value.1 != [] ==>
              FromDer(parser, ders) == Err(X509Parse(TrailingData(i)))
    ensures 0 < i == |ders| ==>
              && FromDer(parser, ders).Ok?
              && |FromDer(parser, ders).value.certs| == |ders|
              && forall j :: 0 <= j < |ders| ==>
                   FromDer(parser, ders).value.certs[j] == ParsedCert(parser(ders[j]).value.0, ders[j])
  {
    if ders != [] {
      var r := ParseFrom(parser, ders, 0);
      assert forall j :: 0 <= j < i ==> ParseFaultOf(parser, ders[j], j) == None;
      if i < |ders| && ParseFaultOf(parser, ders[i], i).Some? {
        assert r.Err?;
      }
    }
  }

  // ----- One certificate -----

  /** The first of these that is wrong with certificate `i` is reported; certificates of the prefix skip most. */
  lemma CertificateOutcome(p: Primitives, certs: seq<ParsedCert>, prefix: nat, timestampMs: u64, i: nat)
    requires i < |certs|
    ensures var c := certs[i].cert;
            var parent := if i == 0 then certs[0].cert else certs[i - 1].cert;
            var leaf := 0 < i == |certs| - 1;
            var key, signature := p.decodeKey(parent.publicKey), p.decodeDerSignature(c.signature);
            CertFault(p, certs, prefix, timestampMs, i)
            == if c.notAfter < 0 then Some(NotAfterNegative)
               else if i > 0 && c.issuer == c.subject then Some(SelfIssued)
               else if i < prefix then None
               else if c.signatureAlgorithm != [1, 2, 840, 10045, 4, 3, 3] then Some(SignatureAlgorithm)
               else if c.keyAlgorithm != [1, 2, 840, 10045, 2, 1] then Some(KeyAlgorithm)
               else if c.curve.None? then Some(CurveMissing)
               else if c.curve.value != [1, 3, 132, 0, 34] then Some(CurveUnsupported)
               else if c.basicConstraints.Malformed? then Some(BasicConstraintsParse)
               else if c.keyUsage.Malformed? then Some(KeyUsageParse)
               else if leaf && c.basicConstraints.Present? && c.basicConstraints.value.ca then Some(LeafIsCa)
               else if leaf && c.keyUsage.Present? && !c.keyUsage.value.digitalSignature then
                 Some(LeafLacksDigitalSignature)
               else if !leaf && c.basicConstraints.Absent? then Some(CaLacksBasicConstraints)
               else if !leaf && !c.basicConstraints.value.ca then Some(CaFlagFalse)
               else if !leaf && c.keyUsage.Absent? then Some(CaLacksKeyUsage)
               else if !leaf && !c.keyUsage.value.keyCertSign then Some(CaLacksKeyCertSign)
               else if timestampMs / 1000 < c.notBefore then Some(NotYetValid)
               else if timestampMs / 1000 > c.notAfter then Some(Expired)
               else if i > 0 && c.issuer != parent.subject then Some(IssuerMismatch)
               else if i > 0 && parent.basicConstraints.Malformed? then Some(ParentConstraintsParse)
               else if i > 0 && parent.basicConstraints.Present? && parent.basicConstraints.value.pathLen.Some?
                       && (|certs| - 1 - i) % 0x1_0000_0000 > parent.basicConstraints.value.pathLen.value then
                 Some(PathLength)
               else if key.None? then Some(ParentKey)
               else if signature.None? then Some(SignatureEncoding)
               else if !p.ecdsaVerify(key.value, c.tbs, signature.value) then Some(SignatureInvalid)
               else None
  {
    ValidityArithmetic(certs[i].cert, timestampMs);
  }

  // ----- Whole chains -----

  /** The least certificate with a fault decides the error; without one, each has a digest and an expiry. */
  lemma ChainOutcome(p: Primitives, chain: CertChain, prefix: nat, timestampMs: u64, i: nat)
    requires i <= |chain.certs|
    requires forall j :: 0 <= j < i ==> CertFault(p, chain.certs, prefix, timestampMs, j).None?
    ensures var r, certs := ChainResult(p, chain, prefix, timestampMs), chain.certs;
            && (prefix > |certs| ==> r == Err(CertificateVerification(PrefixTooLong)))
            && (prefix <= |certs| && i < |certs| && CertFault(p, certs, prefix, timestampMs, i).Some? ==>
                  var check := CertFault(p, certs, prefix, timestampMs, i).value;
                  r == if check == ParentKey || check == SignatureEncoding || check == SignatureInvalid
                       then Err(CertificateSignature(At(i, check)))
                       else Err(CertificateVerification(At(i, check))))
            && (prefix <= |certs| == i ==>
                  && r.Ok?
                  && |r.value.digests| == |certs| && |r.value.expiries| == |certs|
                  && (certs != [] ==> r.value.digests[0] == p.sha256(certs[0].der))
                  && (forall k :: 0 < k < |certs| ==>
                                    r.value.digests[k] == p.sha256(r.value.digests[k - 1] + p.sha256(certs[k].der)))
                  && (forall k :: 0 <= k < |certs| ==> r.value.expiries[k] == certs[k].cert.notAfter))
  {
    hide CertFault, PathDigest.PathDigests;
    PathDigest.PathDigestsAccumulate(p.sha256, chain.Ders());
    var first := FirstFault(p, chain.certs, prefix, timestampMs, 0);
    if first.Some? {
      assert first.value.0 >= i;
    }
  }

  /** A DER signature that decodes, and is valid under a key that decodes. */
  predicate ValidSignature(p: Primitives, publicKey: seq<byte>, message: seq<byte>, signature: seq<byte>) {
    match (p.decodeKey(publicKey), p.decodeDerSignature(signature))
    case (Some(key), Some(s)) => p.ecdsaVerify(key, message, s)
    case _ => false
  }

  /** What an untrusted certificate must be: a P-384 CA, or the leaf of several, in its validity period. */
  predicate FitInFields(certs: seq<ParsedCert>, timestampMs: u64, i: nat)
    requires i < |certs|
  {
    var c := certs[i].cert;
    && c.signatureAlgorithm == [1, 2, 840, 10045, 4, 3, 3]
    && c.keyAlgorithm == [1, 2, 840, 10045, 2, 1]
    && c.curve == Some([1, 3, 132, 0, 34])
    && !c.basicConstraints.Malformed? && !c.keyUsage.Malformed?
    && (if |certs| > 1 && i == |certs| - 1
        then && (c.basicConstraints.Present? ==> !c.basicConstraints.value.ca)
             && (c.keyUsage.Present? ==> c.keyUsage.value.digitalSignature)
        else && c.basicConstraints.Present? && c.basicConstraints.value.ca
             && c.keyUsage.Present? && c.keyUsage.value.keyCertSign)
    && c.notBefore * 1000 <= timestampMs < (c.notAfter + 1) * 1000
  }

  /** What ties an untrusted certificate to the one before it. */
  predicate LinkedInFields(p: Primitives, certs: seq<ParsedCert>, i: nat)
    requires 0 < i < |certs|
  {
    var c, parent := certs[i].cert, certs[i - 1].cert;
    && c.issuer == parent.subject
    && !parent.basicConstraints.Malformed?
    && (parent.basicConstraints.Present? && parent.basicConstraints.value.pathLen.Some? ==>
          (|certs| - 1 - i) % 0x1_0000_0000 <= parent.basicConstraints.value.pathLen.value)
    && ValidSignature(p, parent.publicKey, c.tbs, c.signature)
  }

  lemma ValidatedInFields(p: Primitives, certs: seq<ParsedCert>, timestampMs: u64, i: nat)
    requires i < |certs|
    ensures var c := certs[i].cert;
            Validated(p, certs, timestampMs, i)
            <==>
            && FitInFields(certs, timestampMs, i)
            && (if i == 0 then ValidSignature(p, c.publicKey, c.tbs, c.signature) else LinkedInFields(p, certs, i))
  {
  }

  /** Exactly these chains are accepted. */
  lemma ChainInFields(p: Primitives, chain: CertChain, prefix: nat, timestampMs: u64)
    ensures var certs := chain.certs;
            ChainResult(p, chain, prefix, timestampMs).Ok?
            <==>
            && prefix <= |certs|
            && (forall i :: 0 <= i < |certs| ==> certs[i].cert.notAfter >= 0)
            && (forall i :: 0 < i < |certs| ==> certs[i].cert.issuer != certs[i].cert.subject)
            && (forall i :: prefix <= i < |certs| ==> FitInFields(certs, timestampMs, i))
            && (forall i :: 0 < i && prefix <= i < |certs| ==> LinkedInFields(p, certs, i))
            && (prefix == 0 && certs != [] ==>
                  ValidSignature(p, certs[0].cert.publicKey, certs[0].cert.tbs, certs[0].cert.signature))
  {
    hide Validated, FitInFields, LinkedInFields, ValidSignature, ChainResult;
    var certs := chain.certs;
    ChainResultExact(p, chain, prefix, timestampMs);
    forall i | prefix <= i < |certs|
      ensures Validated(p, certs, timestampMs, i)
              <==> && FitInFields(certs, timestampMs, i)
                   && (if i > 0 then LinkedInFields(p, certs, i)
                       else ValidSignature(p, certs[0].cert.publicKey, certs[0].cert.tbs, certs[0].cert.signature))
    {
      ValidatedInFields(p, certs, timestampMs, i);
    }
    if ChainResult(p, chain, prefix, timestampMs).Ok? {
      forall i | 0 <= i < |certs|
        ensures certs[i].cert.notAfter >= 0 && (i > 0 ==> certs[i].cert.issuer != certs[i].cert.subject)
        ensures prefix <= i ==> FitInFields(certs, timestampMs, i) && (i > 0 ==> LinkedInFields(p, certs, i))
      {
        assert TrustInvariant(certs, i) && (prefix <= i ==> Validated(p, certs, timestampMs, i));
      }
      assert prefix == 0 && certs != [] ==> Validated(p, certs, timestampMs, 0);
    } else if prefix <= |certs| {
      assert (exists i :: 0 <= i < |certs| && !TrustInvariant(certs, i))
             || exists i :: prefix <= i < |certs| && !Validated(p, certs, timestampMs, i);
    }
  }

  /** A single certificate is validated as a root: a CA that signed itself, whatever its names are. */
  lemma SingleCertificate(p: Primitives, cert: ParsedCert, timestampMs: u64)
    ensures var c, r := cert.cert, ChainResult(p, CertChain([cert]), 0, timestampMs);
            && (r.Ok? <==>
                && c.notAfter >= 0
                && c.signatureAlgorithm == [1, 2, 840, 10045, 4, 3, 3]
                && c.keyAlgorithm == [1, 2, 840, 10045, 2, 1]
                && c.curve == Some([1, 3, 132, 0, 34])
                && c.basicConstraints.Present? && c.basicConstraints.value.ca
                && c.keyUsage.Present? && c.keyUsage.value.keyCertSign
                && c.notBefore * 1000 <= timestampMs < (c.notAfter + 1) * 1000
                && p.decodeKey(c.publicKey).Some? && p.decodeDerSignature(c.signature).Some?
                && p.ecdsaVerify(p.decodeKey(c.publicKey).value, c.tbs, p.decodeDerSignature(c.signature).value))
            && (r.Ok? ==> r.value.digests == [p.sha256(cert.der)] && r.value.expiries == [c.notAfter as u64])
  {
    var chain := CertChain([cert]);
    ChainResultExact(p, chain, 0, timestampMs);
    assert chain.certs[0] == cert;
    assert TrustInvariant(chain.certs, 0) <==> cert.cert.notAfter >= 0;
    PathDigest.PathDigestsAccumulate(p.sha256, chain.Ders());
  }

  // ----- Verification -----

  /** What verification returns, stage by stage. */
  lemma VerificationOutcome(env: Environment, input: VerifierInput)
    ensures var r := Verify(env, input);
            match Cose.ParseCose(input.attestationReport)
            case Err(e) => r == Err(e)
            case Ok(cose) =>
              match env.docParser(cose.payload)
              case None => r == Err(AttestationFormat)
              case Some(doc) => DocumentOutcome(env, input.trustedCertsPrefixLen, cose, doc, r)
  {
    var cose := Cose.ParseCose(input.attestationReport);
    if cose.Ok? && env.docParser(cose.value.payload).Some? {
      DocumentDecides(env, input, cose.value, env.docParser(cose.value.payload).value);
    }
  }

  /** The outcome for a parsed report, in the fields of its document. */
  predicate DocumentOutcome(env: Environment, prefix: u8, cose: Cose.CoseSign1, doc: AttestationDocument,
                            r: Result<VerifierJournal, VerifierError>)
  {
    if ContentFault(doc).Some? then r == Err(ContentValidation(ContentFault(doc).value))
    else
      match FromDer(env.derParser, doc.cabundle + [doc.certificate])
      case Err(e) => r == Err(e)
      case Ok(chain) =>
        match ChainResult(env.crypto, chain, prefix, doc.timestamp)
        case Err(e) => r == Err(e)
        case Ok(output) => SignatureOutcome(env.crypto, prefix, cose, doc, chain, output, r)
  }

  /** The outcome for an accepted chain: the signature of its last certificate's key decides. */
  predicate SignatureOutcome(p: Primitives, prefix: u8, cose: Cose.CoseSign1, doc: AttestationDocument,
                             chain: CertChain, output: ChainOutput, r: Result<VerifierJournal, VerifierError>)
  {
    && chain.certs != []
    && var key := p.decodeKey(chain.certs[|chain.certs| - 1].cert.publicKey);
       var signature := p.decodeRawSignature(cose.signature);
       if key.None? then r == Err(CoseSignature(BadLeafKey))
       else if signature.None? then r == Err(CoseSignature(BadCoseSignature))
       else if !p.ecdsaVerify(key.value, Cose.SigStructure(cose.protected, cose.payload), signature.value) then
         r == Err(CoseSignature(CoseSignatureRejected))
       else
         && r.Ok?
         && r.value.result == Success
         && r.value.trustedCertsPrefixLen == prefix
         && r.value.timestamp == doc.timestamp
         && r.value.certs == output.digests
         && r.value.certExpiries == output.expiries
         && r.value.userData == (if doc.userData.Some? then doc.userData.value else [])
         && r.value.nonce == (if doc.nonce.Some? then doc.nonce.value else [])
         && r.value.publicKey == (if doc.publicKey.Some? then doc.publicKey.value else [])
         && r.value.moduleId == doc.moduleId
         && |r.value.pcrs| == |doc.pcrs|
         && forall i :: 0 <= i < |r.value.pcrs| ==>
              && r.value.pcrs[i].index in doc.pcrs
              && r.value.pcrs[i].value.first == doc.pcrs[r.value.pcrs[i].index][..32]
              && r.value.pcrs[i].value.second == doc.pcrs[r.value.pcrs[i].index][32..]
  }

  lemma DocumentDecides(env: Environment, input: VerifierInput, cose: Cose.CoseSign1, doc: AttestationDocument)
    requires Cose.ParseCose(input.attestationReport) == Ok(cose) && env.docParser(cose.payload) == Some(doc)
    ensures DocumentOutcome(env, input.trustedCertsPrefixLen, cose, doc, Verify(env, input))
  {
    hide ContentFault, FromDer, ChainResult, Cose.ParseCose, Cose.SigStructure, PcrEntries;
    PcrEntriesExact(doc.pcrs);
    var chain := FromDer(env.derParser, CertChainDer(doc));
    if chain.Ok? {
      FromDerExact(env.derParser, CertChainDer(doc), chain.value);
      assert |chain.value.Ders()| == |chain.value.certs|;
    }
  }

  // ----- Object identifiers -----

  /** An arc in base 128, with the high bit set on all bytes but the last (section 8.19 of X.690). */
  function ArcOctets(arc: nat, more: bool): seq<byte> {
    if arc < 128 then [if more then arc + 128 else arc]
    else ArcOctets(arc / 128, true) + [if more then arc % 128 + 128 else arc % 128]
  }

  function ArcsOctets(arcs: seq<nat>): seq<byte> {
    if arcs == [] then [] else ArcOctets(arcs[0], false) + ArcsOctets(arcs[1..])
  }

  /** The contents octets of an object identifier in DER. */
  function OidOctets(oid: Oid): seq<byte>
    requires |oid| >= 2
  {
    ArcOctets(oid[0] * 40 + oid[1], false) + ArcsOctets(oid[2..])
  }

  /** The identifiers that are asked for are those of the certificates in the repository's tests. */
  lemma OidsOfNitroCertificates()
    ensures OidOctets(OID_SIG_ECDSA_WITH_SHA384) == [0x2A, 0x86, 0x48, 0xCE, 0x3D, 0x04, 0x03, 0x03]
    ensures OidOctets(OID_KEY_TYPE_EC_PUBLIC_KEY) == [0x2A, 0x86, 0x48, 0xCE, 0x3D, 0x02, 0x01]
    ensures OidOctets(OID_NIST_EC_P384) == [0x2B, 0x81, 0x04, 0x00, 0x22]
  {
    hide OidOctets;
    Arcs();
    var x, y, z := OID_SIG_ECDSA_WITH_SHA384, OID_KEY_TYPE_EC_PUBLIC_KEY, OID_NIST_EC_P384;
    OneMoreArc([1, 2, 840], 10045, x[..4]);
    OneMoreArc(x[..4], 4, x[..5]);
    OneMoreArc(x[..5], 3, x[..6]);
    OneMoreArc(x[..6], 3, x);
    OneMoreArc(x[..4], 2, y[..5]);
    OneMoreArc(y[..5], 1, y);
    OneMoreArc([1, 3, 132], 0, z[..4]);
    OneMoreArc(z[..4], 34, z);
  }

  lemma OneMoreArc(oid: Oid, arc: nat, longer: Oid)
    requires |oid| >= 2 && longer == oid + [arc]
    ensures OidOctets(longer) == OidOctets(oid) + ArcOctets(arc, false)
  {
    assert longer[2..] == oid[2..] + [arc];
    ArcsConcatenate(oid[2..], arc);
  }

  lemma {:induction false} ArcsConcatenate(arcs: seq<nat>, arc: nat)
    ensures ArcsOctets(arcs + [arc]) == ArcsOctets(arcs) + ArcOctets(arc, false)
  {
    hide ArcOctets;
    if arcs == [] {
      assert arcs + [arc] == [arc];
    } else {
      assert (arcs + [arc])[1..] == arcs[1..] + [arc];
      ArcsConcatenate(arcs[1..], arc);
    }
  }

  lemma Arcs()
    ensures ArcOctets(840, false) == [0x86, 0x48] && ArcOctets(10045, false) == [0xCE, 0x3D]
    ensures ArcOctets(132, false) == [0x81, 0x04]
    ensures forall arc: nat :: arc < 128 ==> ArcOctets(arc, false) == [arc]
    ensures OidOctets([1, 2, 840]) == [0x2A, 0x86, 0x48] && OidOctets([1, 3, 132]) == [0x2B, 0x81, 0x04]
  {
    assert [1, 2, 840][2..] == [840] && [1, 3, 132][2..] == [132];
  }
}
