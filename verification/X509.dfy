/** Certificate chain parsing and validation. */
module X509 {
  import opened Basics
  import opened Errors
  import opened Crypto
  import PathDigest

  // ----- Certificates -----

  type Oid = seq<nat>

  const OID_SIG_ECDSA_WITH_SHA384: Oid := [1, 2, 840, 10045, 4, 3, 3]
  const OID_KEY_TYPE_EC_PUBLIC_KEY: Oid := [1, 2, 840, 10045, 2, 1]
  const OID_NIST_EC_P384: Oid := [1, 3, 132, 0, 34]

  datatype Extension<+T> = Absent | Malformed | Present(value: T)

  datatype BasicConstraints = BasicConstraints(ca: bool, pathLen: Option<u32>)

  datatype KeyUsage = KeyUsage(digitalSignature: bool, keyCertSign: bool)

  /** The parts of an X.509 certificate that validation reads; names are their encoded form. */
  datatype Certificate = Certificate(
    tbs: seq<byte>,
    subject: seq<byte>,
    issuer: seq<byte>,
    notBefore: i64,
    notAfter: i64,
    signatureAlgorithm: Oid,
    keyAlgorithm: Oid,
    curve: Option<Oid>,
    publicKey: seq<byte>,
    signature: seq<byte>,
    basicConstraints: Extension<BasicConstraints>,
    keyUsage: Extension<KeyUsage>
  )

  datatype ParsedCert = ParsedCert(cert: Certificate, der: seq<byte>)

  /** The DER parser: a certificate and the bytes after it, or nothing. */
  type DerParser = seq<byte> -> Option<(Certificate, seq<byte>)>

  datatype CertChain = CertChain(certs: seq<ParsedCert>) {
    function Ders(): (ders: seq<seq<byte>>)
      ensures |ders| == |certs|
    {
      seq(|certs|, i requires 0 <= i < |certs| => certs[i].der)
    }

    /** The returned notAfter values; meaningful once none of them is negative. */
    function Expiries(): (es: seq<u64>)
      requires forall i :: 0 <= i < |certs| ==> certs[i].cert.notAfter >= 0
      ensures |es| == |certs|
    {
      seq(|certs|, i requires 0 <= i < |certs| => certs[i].cert.notAfter as u64)
    }
  }

  // ----- Parsing a chain -----

  /** How one DER string of a chain fails to parse, if it does. */
  function ParseFaultOf(parser: DerParser, der: seq<byte>, at: nat): Option<ParseFault> {
    match parser(der)
    case None => Some(MalformedDer(at))
    case Some((_, rest)) => if rest != [] then Some(TrailingData(at)) else None
  }

  function FromDer(parser: DerParser, ders: seq<seq<byte>>): Result<CertChain, VerifierError> {
    if ders == [] then Err(X509Parse(EmptyChain))
    else
      var certs :- ParseFrom(parser, ders, 0);
      Ok(CertChain(certs))
  }

  function ParseFrom(parser: DerParser, ders: seq<seq<byte>>, at: nat): (r: Result<seq<ParsedCert>, VerifierError>)
    requires at <= |ders|
    ensures r.Ok? ==>
              && |r.value| == |ders| - at
              && forall i :: at <= i < |ders| ==>
                   ParseFaultOf(parser, ders[i], i) == None
                   && r.value[i - at] == ParsedCert(parser(ders[i]).value.0, ders[i])
    ensures r.Err? ==>
              exists i :: at <= i < |ders| && ParseFaultOf(parser, ders[i], i).Some?
                          && r.error == X509Parse(ParseFaultOf(parser, ders[i], i).value)
                          && forall j :: at <= j < i ==> ParseFaultOf(parser, ders[j], j) == None
    decreases |ders| - at
  {
    if at == |ders| then Ok([])
    else
      match ParseFaultOf(parser, ders[at], at)
      case Some(fault) => Err(X509Parse(fault))
      case None =>
        var tail :- ParseFrom(parser, ders, at + 1);
        Ok([ParsedCert(parser(ders[at]).value.0, ders[at])] + tail)
  }

  /** Every certificate of the chain is what the parser makes of its own DER bytes, with nothing left over. */
  ghost predicate ParsedBy(parser: DerParser, chain: CertChain) {
    forall i :: 0 <= i < |chain.certs| ==> parser(chain.certs[i].der) == Some((chain.certs[i].cert, []))
  }

  /** Parsing succeeds exactly on non-empty lists of complete certificates, and keeps their bytes and order. */
  lemma FromDerExact(parser: DerParser, ders: seq<seq<byte>>, chain: CertChain)
    ensures FromDer(parser, ders) == Ok(chain) <==> ders != [] && chain.Ders() == ders && ParsedBy(parser, chain)
  {
    if FromDer(parser, ders) == Ok(chain) {
      assert chain.Ders() == ders;
      forall i | 0 <= i < |ders|
        ensures parser(chain.certs[i].der) == Some((chain.certs[i].cert, []))
      {
        assert ParseFaultOf(parser, ders[i], i) == None;
      }
    }
    if ders != [] && chain.Ders() == ders && ParsedBy(parser, chain) {
      forall i | 0 <= i < |ders|
        ensures ParseFaultOf(parser, ders[i], i) == None
      {
        assert ders[i] == chain.Ders()[i] == chain.certs[i].der;
      }
      var r := ParseFrom(parser, ders, 0);
      assert r.Ok?;
      assert r.value == chain.certs by {
        forall i | 0 <= i < |ders|
          ensures r.value[i] == chain.certs[i]
        {
          assert ders[i] == chain.Ders()[i] == chain.certs[i].der;
        }
      }
    }
  }

  /** Equal DER bytes mean equal certificates. */
  lemma ParsingIsDeterministic(parser: DerParser, a: CertChain, b: CertChain, k: nat)
    requires ParsedBy(parser, a) && ParsedBy(parser, b)
    requires k <= |a.certs| && k <= |b.certs|
    requires a.Ders()[..k] == b.Ders()[..k]
    ensures a.certs[..k] == b.certs[..k]
  {
    forall i | 0 <= i < k
      ensures a.certs[i] == b.certs[i]
    {
      assert a.Ders()[..k][i] == a.certs[i].der;
      assert b.Ders()[..k][i] == b.certs[i].der;
    }
  }

  // ----- What validation requires, stated without reference to the order of the checks -----

  predicate SelfIssuedCert(c: Certificate) {
    c.issuer == c.subject
  }

  predicate IsCa(c: Certificate) {
    c.basicConstraints.Present? && c.basicConstraints.value.ca
  }

  /** Only the last certificate of a chain of several plays the leaf. */
  predicate IsLeaf(n: nat, i: nat) {
    n > 1 && i == n - 1
  }

  predicate UsesP384(c: Certificate) {
    && c.signatureAlgorithm == OID_SIG_ECDSA_WITH_SHA384
    && c.keyAlgorithm == OID_KEY_TYPE_EC_PUBLIC_KEY
    && c.curve == Some(OID_NIST_EC_P384)
  }

  predicate FitsRole(c: Certificate, isLeaf: bool) {
    && UsesP384(c)
    && !c.basicConstraints.Malformed?
    && !c.keyUsage.Malformed?
    && (isLeaf ==> !IsCa(c) && (c.keyUsage.Present? ==> c.keyUsage.value.digitalSignature))
    && (!isLeaf ==> IsCa(c) && c.keyUsage.Present? && c.keyUsage.value.keyCertSign)
  }

  /** Validity in unbounded integers: milliseconds from the start of notBefore to the end of notAfter. */
  predicate ValidAt(c: Certificate, timestampMs: u64) {
    c.notBefore * 1000 <= timestampMs < (c.notAfter + 1) * 1000
  }

  /** Whole seconds of a millisecond timestamp, through the code's cast. */
  function Seconds(timestampMs: u64): i64 {
    AsI64(timestampMs / 1000)
  }

  /** The path-length test the code makes on certificate `i`, with its 32-bit cast. */
  predicate PathLengthTest(certs: seq<ParsedCert>, i: nat)
    requires 0 < i < |certs|
  {
    var bc := certs[i - 1].cert.basicConstraints;
    bc.Present? && bc.value.pathLen.Some? ==> AsU32(|certs| - 1 - i) <= bc.value.pathLen.value
  }

  /** The certificate whose key must have signed certificate `i`: its predecessor, or the root itself. */
  function Issuer(certs: seq<ParsedCert>, i: nat): Certificate
    requires i < |certs|
  {
    if i == 0 then certs[0].cert else certs[i - 1].cert
  }

  /** Required of every certificate, trusted or not. */
  predicate TrustInvariant(certs: seq<ParsedCert>, i: nat)
    requires i < |certs|
  {
    certs[i].cert.notAfter >= 0 && (i > 0 ==> !SelfIssuedCert(certs[i].cert))
  }

  /** Names chain, and the issuer's path-length constraint, if any, is respected. */
  predicate LinkedToIssuer(certs: seq<ParsedCert>, i: nat)
    requires 0 < i < |certs|
  {
    && certs[i].cert.issuer == certs[i - 1].cert.subject
    && !certs[i - 1].cert.basicConstraints.Malformed?
    && PathLengthTest(certs, i)
  }

  /** Required of certificate `i` when it is not in the trusted prefix. */
  predicate Validated(p: Primitives, certs: seq<ParsedCert>, timestampMs: u64, i: nat)
    requires i < |certs|
  {
    var c := certs[i].cert;
    && FitsRole(c, IsLeaf(|certs|, i))
    && ValidAt(c, timestampMs)
    && (i > 0 ==> LinkedToIssuer(certs, i))
    && SignsDer(p, Issuer(certs, i).publicKey, c.tbs, c.signature)
  }

  ghost predicate Accepts(p: Primitives, certs: seq<ParsedCert>, prefix: nat, timestampMs: u64) {
    && prefix <= |certs|
    && (forall i :: 0 <= i < |certs| ==> TrustInvariant(certs, i))
    && (forall i :: prefix <= i < |certs| ==> Validated(p, certs, timestampMs, i))
  }

  // ----- Arithmetic of the casts -----

  /**
   * Comparing truncated seconds, through the 64-bit cast, is exact in milliseconds for every 64-bit timestamp:
   * the cast never wraps, and a certificate stays valid to the end of its last second.
   */
  lemma ValidityArithmetic(c: Certificate, timestampMs: u64)
    ensures Seconds(timestampMs) == timestampMs / 1000
    ensures c.notBefore <= Seconds(timestampMs) <= c.notAfter <==> ValidAt(c, timestampMs)
  {
    assert timestampMs / 1000 * 1000 <= timestampMs < (timestampMs / 1000 + 1) * 1000;
  }

  // ----- The order of the checks -----

  function Rank(c: Check): nat {
    match c
    case NotAfterNegative => 0
    case SelfIssued => 1
    case SignatureAlgorithm => 2
    case KeyAlgorithm => 3
    case CurveMissing => 4
    case CurveUnsupported => 5
    case BasicConstraintsParse => 6
    case KeyUsageParse => 7
    case LeafIsCa => 8
    case LeafLacksDigitalSignature => 9
    case CaLacksBasicConstraints => 10
    case CaFlagFalse => 11
    case CaLacksKeyUsage => 12
    case CaLacksKeyCertSign => 13
    case NotYetValid => 14
    case Expired => 15
    case IssuerMismatch => 16
    case ParentConstraintsParse => 17
    case PathLength => 18
    case ParentKey => 19
    case SignatureEncoding => 20
    case SignatureInvalid => 21
  }

  /** What the content check `c` asks of a certificate in its role. */
  predicate ContentPasses(cert: Certificate, isLeaf: bool, c: Check) {
    var bc, ku := cert.basicConstraints, cert.keyUsage;
    match c
    case SignatureAlgorithm => cert.signatureAlgorithm == OID_SIG_ECDSA_WITH_SHA384
    case KeyAlgorithm => cert.keyAlgorithm == OID_KEY_TYPE_EC_PUBLIC_KEY
    case CurveMissing => cert.curve.Some?
    case CurveUnsupported => cert.curve.Some? ==> cert.curve.value == OID_NIST_EC_P384
    case BasicConstraintsParse => !bc.Malformed?
    case KeyUsageParse => !ku.Malformed?
    case LeafIsCa => isLeaf && bc.Present? ==> !bc.value.ca
    case LeafLacksDigitalSignature => isLeaf && ku.Present? ==> ku.value.digitalSignature
    case CaLacksBasicConstraints => !isLeaf ==> bc.Present?
    case CaFlagFalse => !isLeaf && bc.Present? ==> bc.value.ca
    case CaLacksKeyUsage => !isLeaf ==> ku.Present?
    case CaLacksKeyCertSign => !isLeaf && ku.Present? ==> ku.value.keyCertSign
    case _ => true
  }

  /** What the remaining checks ask of an untrusted certificate: validity period, link to its issuer, signature. */
  predicate LinkPasses(p: Primitives, certs: seq<ParsedCert>, timestampMs: u64, i: nat, c: Check)
    requires i < |certs|
  {
    var cert := certs[i].cert;
    var issuer := Issuer(certs, i);
    match c
    case NotYetValid => cert.notBefore <= Seconds(timestampMs)
    case Expired => Seconds(timestampMs) <= cert.notAfter
    case IssuerMismatch => i > 0 ==> cert.issuer == issuer.subject
    case ParentConstraintsParse => i > 0 ==> !issuer.basicConstraints.Malformed?
    case PathLength => i > 0 ==> PathLengthTest(certs, i)
    case ParentKey => p.decodeKey(issuer.publicKey).Some?
    case SignatureEncoding => p.decodeDerSignature(cert.signature).Some?
    case SignatureInvalid =>
      p.decodeKey(issuer.publicKey).Some? && p.decodeDerSignature(cert.signature).Some? ==>
        SignsDer(p, issuer.publicKey, cert.tbs, cert.signature)
    case _ => true
  }

  /** What check `c` asks of certificate `i`; a certificate in the trusted prefix skips all but the first two. */
  predicate Passes(p: Primitives, certs: seq<ParsedCert>, prefix: nat, timestampMs: u64, i: nat, c: Check)
    requires i < |certs|
  {
    match c
    case NotAfterNegative => certs[i].cert.notAfter >= 0
    case SelfIssued => i > 0 ==> !SelfIssuedCert(certs[i].cert)
    case _ =>
      i >= prefix ==>
        && ContentPasses(certs[i].cert, IsLeaf(|certs|, i), c)
        && LinkPasses(p, certs, timestampMs, i, c)
  }

  /** Check `c` is the first one, in the order of the code, that certificate `i` fails. */
  ghost predicate FirstFailure(p: Primitives, certs: seq<ParsedCert>, prefix: nat, timestampMs: u64, i: nat, c: Check)
    requires i < |certs|
  {
    && !Passes(p, certs, prefix, timestampMs, i, c)
    && forall d :: Rank(d) < Rank(c) ==> Passes(p, certs, prefix, timestampMs, i, d)
  }

  ghost predicate PassesAll(p: Primitives, certs: seq<ParsedCert>, prefix: nat, timestampMs: u64, i: nat)
    requires i < |certs|
  {
    forall c :: Passes(p, certs, prefix, timestampMs, i, c)
  }

  lemma ContentExact(cert: Certificate, isLeaf: bool)
    ensures (forall c :: ContentPasses(cert, isLeaf, c)) <==> FitsRole(cert, isLeaf)
  {
    assert && ContentPasses(cert, isLeaf, SignatureAlgorithm)
           && ContentPasses(cert, isLeaf, KeyAlgorithm)
           && ContentPasses(cert, isLeaf, CurveMissing)
           && ContentPasses(cert, isLeaf, CurveUnsupported)
      <==> UsesP384(cert);
    assert ContentPasses(cert, isLeaf, BasicConstraintsParse) <==> !cert.basicConstraints.Malformed?;
    assert ContentPasses(cert, isLeaf, KeyUsageParse) <==> !cert.keyUsage.Malformed?;
    if isLeaf {
      assert ContentPasses(cert, isLeaf, LeafIsCa) <==> !IsCa(cert);
      assert ContentPasses(cert, isLeaf, LeafLacksDigitalSignature)
        <==> (cert.keyUsage.Present? ==> cert.keyUsage.value.digitalSignature);
    } else {
      assert ContentPasses(cert, isLeaf, CaLacksBasicConstraints) && ContentPasses(cert, isLeaf, CaFlagFalse)
        <==> IsCa(cert);
      assert ContentPasses(cert, isLeaf, CaLacksKeyUsage) && ContentPasses(cert, isLeaf, CaLacksKeyCertSign)
        <==> cert.keyUsage.Present? && cert.keyUsage.value.keyCertSign;
    }
  }

  lemma SignatureExact(p: Primitives, certs: seq<ParsedCert>, timestampMs: u64, i: nat)
    requires i < |certs|
    ensures SignsDer(p, Issuer(certs, i).publicKey, certs[i].cert.tbs, certs[i].cert.signature)
            <==> && LinkPasses(p, certs, timestampMs, i, ParentKey)
                 && LinkPasses(p, certs, timestampMs, i, SignatureEncoding)
                 && LinkPasses(p, certs, timestampMs, i, SignatureInvalid)
  {
  }

  lemma LinkExact(p: Primitives, certs: seq<ParsedCert>, timestampMs: u64, i: nat)
    requires i < |certs|
    ensures (forall c :: LinkPasses(p, certs, timestampMs, i, c))
            <==>
            && certs[i].cert.notBefore <= Seconds(timestampMs) <= certs[i].cert.notAfter
            && (i > 0 ==> LinkedToIssuer(certs, i))
            && SignsDer(p, Issuer(certs, i).publicKey, certs[i].cert.tbs, certs[i].cert.signature)
  {
    SignatureExact(p, certs, timestampMs, i);
    assert LinkPasses(p, certs, timestampMs, i, NotYetValid) && LinkPasses(p, certs, timestampMs, i, Expired)
      <==> certs[i].cert.notBefore <= Seconds(timestampMs) <= certs[i].cert.notAfter;
    assert && LinkPasses(p, certs, timestampMs, i, IssuerMismatch)
           && LinkPasses(p, certs, timestampMs, i, ParentConstraintsParse)
           && LinkPasses(p, certs, timestampMs, i, PathLength)
      <==> (i > 0 ==> LinkedToIssuer(certs, i));
  }

  /** Passing every check in turn is the same as meeting the declarative requirements. */
  lemma PassesAllExact(p: Primitives, certs: seq<ParsedCert>, prefix: nat, timestampMs: u64, i: nat)
    requires i < |certs|
    ensures PassesAll(p, certs, prefix, timestampMs, i)
            <==> TrustInvariant(certs, i) && (i >= prefix ==> Validated(p, certs, timestampMs, i))
  {
    var cert, isLeaf := certs[i].cert, IsLeaf(|certs|, i);
    LinkExact(p, certs, timestampMs, i);
    ValidityArithmetic(cert, timestampMs);
    ContentExact(cert, isLeaf);
    if PassesAll(p, certs, prefix, timestampMs, i) {
      assert Passes(p, certs, prefix, timestampMs, i, NotAfterNegative);
      assert Passes(p, certs, prefix, timestampMs, i, SelfIssued);
      forall c | i >= prefix
        ensures ContentPasses(cert, isLeaf, c) && LinkPasses(p, certs, timestampMs, i, c)
      {
        assert Passes(p, certs, prefix, timestampMs, i, c);
      }
    }
  }

  // ----- The checks as the code runs them -----

  /** `validate_cert_content`: the first content check that fails. */
  function ValidateCertContent(cert: Certificate, isLeaf: bool): (r: Option<Check>)
    ensures r.Some? ==> 2 <= Rank(r.value) < 14 && !ContentPasses(cert, isLeaf, r.value)
    ensures forall c | r.Some? ==> Rank(c) < Rank(r.value) :: ContentPasses(cert, isLeaf, c)
  {
    if cert.signatureAlgorithm != OID_SIG_ECDSA_WITH_SHA384 then Some(SignatureAlgorithm)
    else if cert.keyAlgorithm != OID_KEY_TYPE_EC_PUBLIC_KEY then Some(KeyAlgorithm)
    else if cert.curve.None? then Some(CurveMissing)
    else if cert.curve.value != OID_NIST_EC_P384 then Some(CurveUnsupported)
    else if cert.basicConstraints.Malformed? then Some(BasicConstraintsParse)
    else if cert.keyUsage.Malformed? then Some(KeyUsageParse)
    else if isLeaf then
      if cert.basicConstraints.Present? && cert.basicConstraints.value.ca then Some(LeafIsCa)
      else if cert.keyUsage.Present? && !cert.keyUsage.value.digitalSignature then Some(LeafLacksDigitalSignature)
      else None
    else
      if cert.basicConstraints.Absent? then Some(CaLacksBasicConstraints)
      else if !cert.basicConstraints.value.ca then Some(CaFlagFalse)
      else if cert.keyUsage.Absent? then Some(CaLacksKeyUsage)
      else if !cert.keyUsage.value.keyCertSign then Some(CaLacksKeyCertSign)
      else None
  }

  /** `check_validity`. */
  function CheckValidity(cert: Certificate, timestampMs: u64): Option<Check> {
    if Seconds(timestampMs) < cert.notBefore then Some(NotYetValid)
    else if Seconds(timestampMs) > cert.notAfter then Some(Expired)
    else None
  }

  /** The issuer and path-length block of `verify_chain`. */
  function CheckIssuer(certs: seq<ParsedCert>, i: nat): Option<Check>
    requires 0 < i < |certs|
  {
    var parent := certs[i - 1].cert;
    if certs[i].cert.issuer != parent.subject then Some(IssuerMismatch)
    else
      match parent.basicConstraints
      case Malformed => Some(ParentConstraintsParse)
      case Absent => None
      case Present(bc) =>
        if bc.pathLen.Some? && AsU32(|certs| - 1 - i) > bc.pathLen.value then Some(PathLength) else None
  }

  /** `verify_signature`. */
  function VerifySignature(p: Primitives, parent: Certificate, child: Certificate): Option<Check> {
    match p.decodeKey(parent.publicKey)
    case None => Some(ParentKey)
    case Some(key) =>
      match p.decodeDerSignature(child.signature)
      case None => Some(SignatureEncoding)
      case Some(signature) =>
        if p.ecdsaVerify(key, child.tbs, signature) then None else Some(SignatureInvalid)
  }

  function OrElse(first: Option<Check>, second: Option<Check>): Option<Check> {
    if first.Some? then first else second
  }

  function LinkFault(p: Primitives, certs: seq<ParsedCert>, timestampMs: u64, i: nat): (r: Option<Check>)
    requires i < |certs|
  {
    OrElse(CheckValidity(certs[i].cert, timestampMs),
           OrElse(if i > 0 then CheckIssuer(certs, i) else None,
                  VerifySignature(p, Issuer(certs, i), certs[i].cert)))
  }

  /** The first check that certificate `i` fails. */
  function CertFault(p: Primitives, certs: seq<ParsedCert>, prefix: nat, timestampMs: u64, i: nat): Option<Check>
    requires i < |certs|
  {
    var cert := certs[i].cert;
    if cert.notAfter < 0 then Some(NotAfterNegative)
    else if i > 0 && SelfIssuedCert(cert) then Some(SelfIssued)
    else if i < prefix then None
    else OrElse(ValidateCertContent(cert, IsLeaf(|certs|, i)), LinkFault(p, certs, timestampMs, i))
  }

  lemma LinkFaultExact(p: Primitives, certs: seq<ParsedCert>, timestampMs: u64, i: nat)
    requires i < |certs|
    ensures var r := LinkFault(p, certs, timestampMs, i);
            && (r.Some? ==> 14 <= Rank(r.value) && !LinkPasses(p, certs, timestampMs, i, r.value))
            && forall c | r.Some? ==> Rank(c) < Rank(r.value) :: LinkPasses(p, certs, timestampMs, i, c)
  {
  }

  /** The check that is reported is the first one, in the order of the code, that the certificate fails. */
  lemma CertFaultExact(p: Primitives, certs: seq<ParsedCert>, prefix: nat, timestampMs: u64, i: nat)
    requires i < |certs|
    ensures var r := CertFault(p, certs, prefix, timestampMs, i);
            && (r.None? <==> PassesAll(p, certs, prefix, timestampMs, i))
            && (r.Some? ==> FirstFailure(p, certs, prefix, timestampMs, i, r.value))
  {
    LinkFaultExact(p, certs, timestampMs, i);
    var r := CertFault(p, certs, prefix, timestampMs, i);
    assert r.Some? ==> !Passes(p, certs, prefix, timestampMs, i, r.value);
  }

  // ----- Whole chains -----

  datatype ChainOutput = ChainOutput(digests: seq<B256>, expiries: seq<u64>)

  /** The first certificate at or after `i` that fails a check, with that check. */
  function FirstFault(p: Primitives, certs: seq<ParsedCert>, prefix: nat, timestampMs: u64, i: nat)
    : (r: Option<(nat, Check)>)
    requires i <= |certs|
    ensures r.None? ==> forall j :: i <= j < |certs| ==> CertFault(p, certs, prefix, timestampMs, j) == None
    ensures r.None? ==> forall j :: i <= j < |certs| ==> certs[j].cert.notAfter >= 0
    ensures r.Some? ==>
              && i <= r.value.0 < |certs|
              && CertFault(p, certs, prefix, timestampMs, r.value.0) == Some(r.value.1)
              && forall j :: i <= j < r.value.0 ==> CertFault(p, certs, prefix, timestampMs, j) == None
    decreases |certs| - i
  {
    if i == |certs| then None
    else
      match CertFault(p, certs, prefix, timestampMs, i)
      case Some(c) => Some((i, c))
      case None => FirstFault(p, certs, prefix, timestampMs, i + 1)
  }

  /** What `verify_chain` returns. */
  function ChainResult(p: Primitives, chain: CertChain, prefix: nat, timestampMs: u64)
    : Result<ChainOutput, VerifierError>
  {
    if prefix > |chain.certs| then Err(CertificateVerification(PrefixTooLong))
    else
      match FirstFault(p, chain.certs, prefix, timestampMs, 0)
      case Some((i, c)) => Err(CheckError(i, c))
      case None =>
        Ok(ChainOutput(PathDigest.PathDigests(p.sha256, chain.Ders()), chain.Expiries()))
  }

  /**
   * `verify_chain` accepts exactly the chains that meet the declarative requirements, and otherwise reports the
   * least failing certificate and, within it, the first failing check.
   */
  lemma ChainResultExact(p: Primitives, chain: CertChain, prefix: nat, timestampMs: u64)
    ensures var r := ChainResult(p, chain, prefix, timestampMs);
            && (r.Ok? <==> Accepts(p, chain.certs, prefix, timestampMs))
            && (r.Ok? ==>
                  && r.value.digests == PathDigest.PathDigests(p.sha256, chain.Ders())
                  && |r.value.expiries| == |chain.certs|
                  && forall i :: 0 <= i < |chain.certs| ==> r.value.expiries[i] == chain.certs[i].cert.notAfter)
            && (r.Err? ==>
                  if prefix > |chain.certs| then r.error == CertificateVerification(PrefixTooLong)
                  else exists i, c ::
                      && 0 <= i < |chain.certs|
                      && r.error == CheckError(i, c)
                      && FirstFailure(p, chain.certs, prefix, timestampMs, i, c)
                      && forall j :: 0 <= j < i ==> PassesAll(p, chain.certs, prefix, timestampMs, j))
  {
    var certs := chain.certs;
    forall i | 0 <= i < |certs|
      ensures CertFault(p, certs, prefix, timestampMs, i) == None
              <==> TrustInvariant(certs, i) && (i >= prefix ==> Validated(p, certs, timestampMs, i))
      ensures CertFault(p, certs, prefix, timestampMs, i) == None <==> PassesAll(p, certs, prefix, timestampMs, i)
    {
      CertFaultExact(p, certs, prefix, timestampMs, i);
      PassesAllExact(p, certs, prefix, timestampMs, i);
    }
    if prefix <= |certs| {
      match FirstFault(p, certs, prefix, timestampMs, 0) {
        case None =>
        case Some((i, c)) =>
          CertFaultExact(p, certs, prefix, timestampMs, i);
          assert FirstFailure(p, certs, prefix, timestampMs, i, c);
      }
    }
  }

  function LeafPublicKey(chain: CertChain): Result<seq<byte>, VerifierError> {
    if chain.certs == [] then Err(CertificateVerification(NoCertificates))
    else Ok(chain.certs[|chain.certs| - 1].cert.publicKey)
  }

  /** The loop of `verify_chain`. */
  method VerifyChain(p: Primitives, chain: CertChain, prefix: nat, timestampMs: u64)
    returns (r: Result<ChainOutput, VerifierError>)
    ensures r == ChainResult(p, chain, prefix, timestampMs)
  {
    var certs := chain.certs;
    if prefix > |certs| {
      return Err(CertificateVerification(PrefixTooLong));
    }
    var digests := PathDigest.ComputePathDigests(p.sha256, chain.Ders());
    var expiries: seq<u64> := [];
    for i := 0 to |certs|
      invariant |expiries| == i
      invariant forall j :: 0 <= j < i ==> CertFault(p, certs, prefix, timestampMs, j) == None
      invariant forall j :: 0 <= j < i ==> expiries[j] == certs[j].cert.notAfter
    {
      var cert := certs[i].cert;
      if cert.notAfter < 0 {
        assert CertFault(p, certs, prefix, timestampMs, i) == Some(NotAfterNegative);
        return Err(CheckError(i, NotAfterNegative));
      }
      expiries := expiries + [cert.notAfter as u64];
      if i > 0 && cert.issuer == cert.subject {
        assert CertFault(p, certs, prefix, timestampMs, i) == Some(SelfIssued);
        return Err(CheckError(i, SelfIssued));
      }
      if i < prefix {
        continue;
      }
      var isLeaf := i == |certs| - 1 && |certs| > 1;
      var fault := ValidateCertContent(cert, isLeaf);
      if fault.None? {
        fault := CheckValidity(cert, timestampMs);
      }
      if fault.None? && i > 0 {
        fault := CheckIssuer(certs, i);
      }
      if fault.None? {
        var parent := if i == 0 then cert else certs[i - 1].cert;
        fault := VerifySignature(p, parent, cert);
      }
      if fault.Some? {
        assert CertFault(p, certs, prefix, timestampMs, i) == fault;
        return Err(CheckError(i, fault.value));
      }
    }
    assert FirstFault(p, certs, prefix, timestampMs, 0) == None;
    assert expiries == chain.Expiries();
    return Ok(ChainOutput(digests, expiries));
  }
}
