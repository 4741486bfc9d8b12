/** Properties of accepted certificate chains. */
module ChainProperties {
  import opened Basics
  import opened Crypto
  import opened X509

  // ----- Trusted prefixes -----

  /** Trusting less costs exactly the checks on the certificates in between, and changes nothing else. */
  lemma PrefixSplit(p: Primitives, chain: CertChain, j: nat, k: nat, timestampMs: u64)
    requires j <= k <= |chain.certs|
    ensures ChainResult(p, chain, j, timestampMs).Ok?
            <==> && ChainResult(p, chain, k, timestampMs).Ok?
                 && forall i :: j <= i < k ==> Validated(p, chain.certs, timestampMs, i)
    ensures ChainResult(p, chain, j, timestampMs).Ok? ==>
              ChainResult(p, chain, j, timestampMs) == ChainResult(p, chain, k, timestampMs)
  {
    ChainResultExact(p, chain, j, timestampMs);
    ChainResultExact(p, chain, k, timestampMs);
    if ChainResult(p, chain, j, timestampMs).Ok? && ChainResult(p, chain, k, timestampMs).Ok? {
      SameOutput(p, chain, j, timestampMs, chain, k, timestampMs);
    }
  }

  /** Trusting more never rejects an accepted chain and never changes what is returned for it. */
  lemma PrefixMonotone(p: Primitives, chain: CertChain, k: nat, k': nat, timestampMs: u64)
    requires k <= k' <= |chain.certs|
    ensures var r := ChainResult(p, chain, k, timestampMs);
            r.Ok? ==> ChainResult(p, chain, k', timestampMs) == r
  {
    PrefixSplit(p, chain, k, k', timestampMs);
  }

  /** What is returned depends on the DER bytes and the notAfter values alone: not on the prefix, nor on the time. */
  lemma SameOutput(p: Primitives, a: CertChain, j: nat, ts1: u64, b: CertChain, k: nat, ts2: u64)
    requires ChainResult(p, a, j, ts1).Ok? && ChainResult(p, b, k, ts2).Ok?
    requires a.Ders() == b.Ders()
    requires |a.certs| == |b.certs|
    requires forall i :: 0 <= i < |a.certs| ==> a.certs[i].cert.notAfter == b.certs[i].cert.notAfter
    ensures ChainResult(p, a, j, ts1) == ChainResult(p, b, k, ts2)
  {
    ChainResultExact(p, a, j, ts1);
    ChainResultExact(p, b, k, ts2);
    var x, y := ChainResult(p, a, j, ts1).value, ChainResult(p, b, k, ts2).value;
    assert x.expiries == y.expiries;
  }

  /** Every untrusted certificate of an accepted chain is returned with an expiry that has not passed. */
  lemma ExpiriesNotPassed(p: Primitives, chain: CertChain, prefix: nat, timestampMs: u64, i: nat)
    requires ChainResult(p, chain, prefix, timestampMs).Ok?
    requires prefix <= i < |chain.certs|
    ensures i < |ChainResult(p, chain, prefix, timestampMs).value.expiries|
    ensures timestampMs / 1000 <= ChainResult(p, chain, prefix, timestampMs).value.expiries[i]
  {
    ChainResultExact(p, chain, prefix, timestampMs);
    assert Validated(p, chain.certs, timestampMs, i);
    ValidityArithmetic(chain.certs[i].cert, timestampMs);
  }

  // ----- Roles -----

  /** In an accepted chain of several certificates, the untrusted CAs are exactly those that are not last. */
  lemma UntrustedRole(p: Primitives, chain: CertChain, prefix: nat, timestampMs: u64, i: nat)
    requires ChainResult(p, chain, prefix, timestampMs).Ok?
    requires prefix <= i < |chain.certs|
    requires |chain.certs| > 1
    ensures IsCa(chain.certs[i].cert) <==> i < |chain.certs| - 1
  {
    ChainResultExact(p, chain, prefix, timestampMs);
    assert Validated(p, chain.certs, timestampMs, i);
  }

  /**
   * A chain and a proper extension of it are never both accepted when the shorter one's last certificate is
   * untrusted: it would have to be a leaf in one and a CA in the other.
   */
  lemma PrefixFreeness(p: Primitives, parser: DerParser, a: CertChain, j: nat, ts1: u64, b: CertChain, k: nat, ts2: u64)
    requires ParsedBy(parser, a) && ParsedBy(parser, b)
    requires 2 <= |a.certs| < |b.certs|
    requires a.Ders() == b.Ders()[..|a.certs|]
    requires j < |a.certs| && k < |a.certs|
    ensures !(ChainResult(p, a, j, ts1).Ok? && ChainResult(p, b, k, ts2).Ok?)
  {
    var n := |a.certs|;
    assert a.Ders()[..n] == a.Ders();
    ParsingIsDeterministic(parser, a, b, n);
    assert a.certs[..n][n - 1] == b.certs[..n][n - 1];
    if ChainResult(p, a, j, ts1).Ok? {
      UntrustedRole(p, a, j, ts1, n - 1);
      if ChainResult(p, b, k, ts2).Ok? {
        UntrustedRole(p, b, k, ts2, n - 1);
      }
    }
  }

  // ----- Self-issued certificates -----

  /** A copy of the trust anchor anywhere after the first position is fatal, whatever is trusted and whenever. */
  lemma DuplicateAnchorRejected(p: Primitives, chain: CertChain, root: ParsedCert, at: nat,
                                prefix: nat, timestampMs: u64)
    requires SelfIssuedCert(root.cert)
    requires 1 <= at <= |chain.certs|
    ensures ChainResult(p, CertChain(chain.certs[..at] + [root] + chain.certs[at..]), prefix, timestampMs).Err?
  {
    var longer := CertChain(chain.certs[..at] + [root] + chain.certs[at..]);
    assert longer.certs[at] == root;
    assert !TrustInvariant(longer.certs, at);
    ChainResultExact(p, longer, prefix, timestampMs);
  }

  /** No untrusted certificate repeats the one before it. */
  lemma NoAdjacentRepeat(p: Primitives, chain: CertChain, prefix: nat, timestampMs: u64, i: nat)
    requires ChainResult(p, chain, prefix, timestampMs).Ok?
    requires Max(prefix, 1) <= i < |chain.certs|
    ensures chain.certs[i].cert != chain.certs[i - 1].cert
  {
    ChainResultExact(p, chain, prefix, timestampMs);
    assert Validated(p, chain.certs, timestampMs, i) && TrustInvariant(chain.certs, i);
  }

  // ----- Path length -----

  /** The path-length comparison at index `i` of a chain of `n` comes out the same with and without the 32-bit cast. */
  predicate CastHarmless(n: nat, i: nat, limit: u32)
    requires 0 < i < n
  {
    AsU32(n - 1 - i) <= limit <==> n - 1 - i <= limit
  }

  /** The cast is harmless just up to chains of 2^32 + 1 certificates. */
  lemma PathLengthCastExact(n: nat)
    ensures n <= TWO_TO_32 + 1 <==> forall i: nat, limit: u32 | 0 < i < n :: CastHarmless(n, i, limit)
  {
    if n > TWO_TO_32 + 1 {
      assert !CastHarmless(n, n - 1 - TWO_TO_32, 0);
    }
  }

  function PathLimit(certs: seq<ParsedCert>, j: nat): Option<u32>
    requires j < |certs|
  {
    var bc := certs[j].cert.basicConstraints;
    if bc.Present? then bc.value.pathLen else None
  }

  /** At most `pathLen` certificates stand between certificate `j` and the last one. */
  predicate WithinLimit(certs: seq<ParsedCert>, j: nat)
    requires j < |certs|
  {
    PathLimit(certs, j).Some? ==> |certs| - 2 - j <= PathLimit(certs, j).value
  }

  /**
   * The running max_path_length of RFC 5280, sections 6.1.4(l) and 6.1.4(m): every certificate but the last
   * uses up one unit unless it is self-issued, and may then lower what remains.
   */
  predicate MaxPathAccepts(certs: seq<ParsedCert>, t: nat, maxPath: nat)
    requires t < |certs|
    decreases |certs| - t
  {
    if t == |certs| - 1 then true
    else if !SelfIssuedCert(certs[t].cert) && maxPath == 0 then false
    else
      var left := if SelfIssuedCert(certs[t].cert) then maxPath else maxPath - 1;
      var limit := PathLimit(certs, t);
      MaxPathAccepts(certs, t + 1, if limit.Some? && limit.value < left then limit.value else left)
  }

  lemma {:induction false} MaxPathFrom(certs: seq<ParsedCert>, t: nat, maxPath: nat)
    requires t < |certs|
    requires forall j :: t <= j < |certs| ==> !SelfIssuedCert(certs[j].cert)
    ensures MaxPathAccepts(certs, t, maxPath)
            <==> maxPath >= |certs| - 1 - t && forall j :: t <= j < |certs| - 1 ==> WithinLimit(certs, j)
    decreases |certs| - t
  {
    if t < |certs| - 1 && maxPath > 0 {
      var limit := PathLimit(certs, t);
      var left := maxPath - 1;
      MaxPathFrom(certs, t + 1, if limit.Some? && limit.value < left then limit.value else left);
      assert WithinLimit(certs, t) <==> (limit.Some? ==> |certs| - 2 - t <= limit.value);
    }
  }

  /** The certificate whose key the first untrusted one is checked under. */
  function BoundaryIndex(prefix: nat): nat {
    if prefix == 0 then 0 else prefix - 1
  }

  /** The counter of RFC 5280, started at the boundary with one unit for each certificate from there on, accepts. */
  predicate WithinRfc5280(certs: seq<ParsedCert>, prefix: nat) {
    && prefix <= |certs|
    && certs != []
    && MaxPathAccepts(certs, BoundaryIndex(prefix), |certs| - BoundaryIndex(prefix))
  }

  /** The first certificate may be self-issued; the counter starts with one unit for each certificate. */
  lemma MaxPathAtBoundary(certs: seq<ParsedCert>, s: nat)
    requires s < |certs|
    requires forall j :: s < j < |certs| ==> !SelfIssuedCert(certs[j].cert)
    ensures MaxPathAccepts(certs, s, |certs| - s) <==> forall j :: s <= j < |certs| - 1 ==> WithinLimit(certs, j)
  {
    var n := |certs|;
    if s < n - 1 {
      var limit := PathLimit(certs, s);
      var left := if SelfIssuedCert(certs[s].cert) then n - s else n - s - 1;
      var next := if limit.Some? && limit.value < left then limit.value else left;
      MaxPathFrom(certs, s + 1, next);
      assert next >= n - 2 - s <==> WithinLimit(certs, s);
    }
  }

  /** The per-parent test of the code decides exactly what the counter of RFC 5280, section 6.1.2(k), decides. */
  lemma PathLengthRefinesRfc5280(certs: seq<ParsedCert>, prefix: nat)
    requires 1 <= |certs| <= TWO_TO_32 + 1
    requires prefix <= |certs|
    requires forall i :: 0 < i < |certs| ==> !SelfIssuedCert(certs[i].cert)
    ensures (forall i :: 0 < i && prefix <= i < |certs| ==> PathLengthTest(certs, i)) <==> WithinRfc5280(certs, prefix)
  {
    var s := BoundaryIndex(prefix);
    PathLengthTestIsLimit(certs, s);
    MaxPathAtBoundary(certs, s);
  }

  lemma PathLengthTestIsLimit(certs: seq<ParsedCert>, s: nat)
    requires s < |certs| <= TWO_TO_32 + 1
    ensures (forall i :: s < i < |certs| ==> PathLengthTest(certs, i))
            <==> forall j :: s <= j < |certs| - 1 ==> WithinLimit(certs, j)
  {
    forall i | s < i < |certs|
      ensures PathLengthTest(certs, i) <==> WithinLimit(certs, i - 1)
    {
    }
    if forall i :: s < i < |certs| ==> PathLengthTest(certs, i) {
      forall j | s <= j < |certs| - 1
        ensures WithinLimit(certs, j)
      {
        assert PathLengthTest(certs, j + 1);
      }
    }
  }

  /** Every accepted chain is within the path lengths of RFC 5280. */
  lemma AcceptedMeetsRfc5280(p: Primitives, chain: CertChain, prefix: nat, timestampMs: u64)
    requires ChainResult(p, chain, prefix, timestampMs).Ok?
    requires 1 <= |chain.certs| <= TWO_TO_32 + 1
    ensures WithinRfc5280(chain.certs, prefix)
  {
    var certs := chain.certs;
    ChainResultExact(p, chain, prefix, timestampMs);
    forall i | 0 < i < |certs|
      ensures !SelfIssuedCert(certs[i].cert)
      ensures prefix <= i ==> PathLengthTest(certs, i)
    {
      assert TrustInvariant(certs, i);
      assert prefix <= i ==> Validated(p, certs, timestampMs, i);
    }
    PathLengthRefinesRfc5280(certs, prefix);
  }

  /** Each constrained certificate from the boundary on bounds the length of every accepted chain. */
  lemma PathLengthBoundsChain(p: Primitives, chain: CertChain, prefix: nat, timestampMs: u64, j: nat)
    requires ChainResult(p, chain, prefix, timestampMs).Ok?
    requires |chain.certs| <= TWO_TO_32 + 1
    requires BoundaryIndex(prefix) <= j < |chain.certs| - 1
    requires PathLimit(chain.certs, j).Some?
    ensures |chain.certs| <= j + PathLimit(chain.certs, j).value + 2
  {
    ChainResultExact(p, chain, prefix, timestampMs);
    assert Validated(p, chain.certs, timestampMs, j + 1);
  }

  // ----- Longer chains -----

  /** DER strings parse to a chain that is then accepted. */
  predicate AcceptsDer(p: Primitives, parser: DerParser, ders: seq<seq<byte>>, prefix: nat, timestampMs: u64) {
    && FromDer(parser, ders).Ok?
    && ChainResult(p, FromDer(parser, ders).value, prefix, timestampMs).Ok?
  }

  /** Whatever `n` DER strings are parsed and accepted, the chain is within the path lengths of RFC 5280. */
  ghost predicate CodeImpliesRfc5280(n: nat) {
    forall p: Primitives, parser: DerParser, ders: seq<seq<byte>>, prefix: nat, timestampMs: u64 ::
      |ders| == n && AcceptsDer(p, parser, ders, prefix, timestampMs) ==>
        WithinRfc5280(FromDer(parser, ders).value.certs, prefix)
  }

  /** The code enforces the path lengths of RFC 5280 on chains of up to 2^32 + 1 certificates, and on no others. */
  lemma PathLengthRangeExact(n: nat)
    ensures CodeImpliesRfc5280(n) <==> n <= TWO_TO_32 + 1
  {
    if n <= TWO_TO_32 + 1 {
      forall p: Primitives, parser: DerParser, ders: seq<seq<byte>>, prefix: nat, timestampMs: u64
        | |ders| == n && AcceptsDer(p, parser, ders, prefix, timestampMs)
        ensures WithinRfc5280(FromDer(parser, ders).value.certs, prefix)
      {
        var chain := FromDer(parser, ders).value;
        FromDerExact(parser, ders, chain);
        assert |chain.Ders()| == |chain.certs|;
        AcceptedMeetsRfc5280(p, chain, prefix, timestampMs);
      }
    } else {
      LongChainParses(n);
      LongChainAccepted(n);
      LongChainTooLong(n);
      assert AcceptsDer(LaxPrimitives(), LongChainParser(n), LongChain(n).Ders(), 0, 1);
    }
  }

  /** Primitives under which every signature is valid. */
  function LaxPrimitives(): Primitives {
    Primitives(
      _ => Zeros(32), _ => Some(Key([])), _ => Some(Signature([])), _ => Some(Signature([])), (_, _, _) => true)
  }

  function AlternatingName(i: nat): seq<byte> {
    [i % 2]
  }

  /**
   * Certificate `i` of a chain, `left` places before the end; the one 2^32 + 1 places before the end allows none
   * in between.
   */
  function LinkCert(i: nat, left: nat): Certificate {
    Certificate(
      [], AlternatingName(i), AlternatingName(i + 1), 0, 0,
      OID_SIG_ECDSA_WITH_SHA384, OID_KEY_TYPE_EC_PUBLIC_KEY, Some(OID_NIST_EC_P384), [], [],
      if left == 0 then Absent
      else Present(BasicConstraints(true, if left == TWO_TO_32 + 1 then Some(0) else None)),
      Present(KeyUsage(true, true)))
  }

  /** `i` as a big-endian number without leading zeros: the bytes that stand for certificate `i`. */
  function Numeral(i: nat): (s: seq<byte>)
    ensures FromBigEndian(s) == i
  {
    if i == 0 then []
    else
      var high := Numeral(i / 256);
      assert (high + [i % 256])[..|high|] == high;
      high + [i % 256]
  }

  function LongChainParser(n: nat): DerParser {
    der =>
      var i := FromBigEndian(der);
      if i < n then Some((LinkCert(i, n - 1 - i), [])) else None
  }

  function LongChain(n: nat): (chain: CertChain)
    ensures |chain.certs| == n
    ensures forall i :: 0 <= i < n ==> chain.certs[i] == ParsedCert(LinkCert(i, n - 1 - i), Numeral(i))
  {
    CertChain(seq(n, i requires 0 <= i < n => ParsedCert(LinkCert(i, n - 1 - i), Numeral(i))))
  }

  lemma LongChainParses(n: nat)
    requires n > 0
    ensures FromDer(LongChainParser(n), LongChain(n).Ders()) == Ok(LongChain(n))
  {
    hide FromDer, FromBigEndian, LinkCert, Numeral;
    var chain := LongChain(n);
    forall i | 0 <= i < n
      ensures LongChainParser(n)(chain.certs[i].der) == Some((chain.certs[i].cert, []))
    {
      assert FromBigEndian(Numeral(i)) == i;
    }
    FromDerExact(LongChainParser(n), chain.Ders(), chain);
  }

  lemma LongChainLinks(n: nat, i: nat)
    requires 0 < i < n
    ensures LinkedToIssuer(LongChain(n).certs, i) && !SelfIssuedCert(LongChain(n).certs[i].cert)
  {
    var certs := LongChain(n).certs;
    assert certs[i - 1].cert == LinkCert(i - 1, n - i);
    assert certs[i].cert == LinkCert(i, n - 1 - i);
    assert (i + 1) % 2 == (i - 1) % 2 != i % 2;
  }

  /** The cast reduces the 2^32 certificates in between to none. */
  lemma LongChainAccepted(n: nat)
    requires n > TWO_TO_32 + 1
    ensures ChainResult(LaxPrimitives(), LongChain(n), 0, 1).Ok?
  {
    var certs := LongChain(n).certs;
    forall i | 0 <= i < n
      ensures TrustInvariant(certs, i) && Validated(LaxPrimitives(), certs, 1, i)
    {
      if i > 0 {
        LongChainLinks(n, i);
      }
      assert certs[i].cert == LinkCert(i, n - 1 - i);
    }
    ChainResultExact(LaxPrimitives(), LongChain(n), 0, 1);
  }

  lemma LongChainTooLong(n: nat)
    requires n > TWO_TO_32 + 1
    ensures !WithinRfc5280(LongChain(n).certs, 0)
  {
    var certs := LongChain(n).certs;
    var j := n - 2 - TWO_TO_32;
    assert certs[j].cert == LinkCert(j, TWO_TO_32 + 1);
    assert !WithinLimit(certs, j);
    forall i | 0 < i < n
      ensures !SelfIssuedCert(certs[i].cert)
    {
      LongChainLinks(n, i);
    }
    MaxPathAtBoundary(certs, 0);
  }
}
