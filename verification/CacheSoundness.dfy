/**
 * A cached prefix of a chain, known only by its path digest, can stand in for validating it again.
 *
 * Chain `a` was validated earlier; chain `b` is accepted now because its first `k` certificates are trusted on
 * the strength of the digest that `a` left behind.
 */
module CacheSoundness {
  import opened Basics
  import opened Crypto
  import opened X509
  import opened ChainProperties
  import PathDigest

  /** The collision, if any, behind the equality of the digests of the first `k` certificates. */
  function CacheCollision(p: Primitives, a: CertChain, b: CertChain, k: nat): Option<PathDigest.Pair>
    requires 1 <= k <= |a.certs| && k <= |b.certs|
  {
    PathDigest.FindCollision(p.sha256, a.Ders(), k - 1, b.Ders(), k - 1)
  }

  /** The situation in which a cache hit happens. */
  ghost predicate CacheHit(p: Primitives, parser: DerParser,
                           a: CertChain, j: nat, ts1: u64,
                           b: CertChain, k: nat, ts2: u64)
  {
    && ParsedBy(parser, a) && ParsedBy(parser, b)
    && ChainResult(p, a, j, ts1).Ok?
    && ChainResult(p, b, k, ts2).Ok?
    && j <= k && 1 <= k < |a.certs| && k < |b.certs|
    && ChainResult(p, a, j, ts1).value.digests[k - 1] == ChainResult(p, b, k, ts2).value.digests[k - 1]
    && ts1 <= ts2
  }

  /** A cache hit without a collision means that the two chains share their first `k` certificates. */
  lemma HitSharesPrefix(p: Primitives, parser: DerParser,
                        a: CertChain, j: nat, ts1: u64, b: CertChain, k: nat, ts2: u64)
    requires |a.certs| >= k && |b.certs| >= k
    requires CacheHit(p, parser, a, j, ts1, b, k, ts2)
    ensures CacheCollision(p, a, b, k).None? ==> a.certs[..k] == b.certs[..k]
    ensures PathDigest.Exhibits(p.sha256, a.Ders(), k - 1, b.Ders(), k - 1, CacheCollision(p, a, b, k))
  {
    hide ChainResult, Accepts, PathDigest.FindCollision;
    ChainResultExact(p, a, j, ts1);
    ChainResultExact(p, b, k, ts2);
    PathDigest.EqualLengthBinding(p.sha256, a.Ders(), b.Ders(), k - 1);
    if CacheCollision(p, a, b, k).None? {
      ParsingIsDeterministic(parser, a, b, k);
    }
  }

  /** Only the expiry and the path length of a shared certificate need to be looked at again. */
  lemma SharedCertificateStillValid(p: Primitives, a: seq<ParsedCert>, ts1: u64, b: seq<ParsedCert>, ts2: u64,
                                    k: nat, i: nat)
    requires i < k < |a| && k < |b|
    requires a[..k] == b[..k]
    requires ts1 <= ts2
    requires Validated(p, a, ts1, i)
    ensures Validated(p, b, ts2, i)
            <==> ts2 / 1000 <= b[i].cert.notAfter && (i > 0 ==> PathLengthTest(b, i))
  {
    assert a[i] == a[..k][i] == b[..k][i] == b[i];
    if i > 0 {
      assert a[i - 1] == a[..k][i - 1] == b[..k][i - 1] == b[i - 1];
    }
    ValidityArithmetic(b[i].cert, ts2);
  }

  /**
   * Exactly what the cache leaves to be checked: after a hit without a collision, trusting only the first `j`
   * certificates gives the same answer with the same outputs if and only if no shared certificate has expired
   * and the shared path-length limits admit the new chain.
   */
  lemma CacheExact(p: Primitives, parser: DerParser, a: CertChain, j: nat, ts1: u64, b: CertChain, k: nat, ts2: u64)
    requires |a.certs| >= k && |b.certs| >= k
    requires CacheHit(p, parser, a, j, ts1, b, k, ts2)
    requires CacheCollision(p, a, b, k).None?
    ensures ChainResult(p, b, j, ts2) == ChainResult(p, b, k, ts2)
            <==> forall i :: j <= i < k ==>
                               && ts2 / 1000 <= b.certs[i].cert.notAfter
                               && (i > 0 ==> PathLengthTest(b.certs, i))
  {
    HitSharesPrefix(p, parser, a, j, ts1, b, k, ts2);
    ChainResultExact(p, a, j, ts1);
    forall i | j <= i < k
      ensures Validated(p, b.certs, ts2, i)
              <==> ts2 / 1000 <= b.certs[i].cert.notAfter && (i > 0 ==> PathLengthTest(b.certs, i))
    {
      assert Validated(p, a.certs, ts1, i);
      SharedCertificateStillValid(p, a.certs, ts1, b.certs, ts2, k, i);
    }
    PrefixSplit(p, b, j, k, ts2);
  }

  /** A shorter chain with the same beginning satisfies every path-length limit of the longer one. */
  lemma ShorterChainFitsLimits(a: seq<ParsedCert>, b: seq<ParsedCert>, k: nat, i: nat)
    requires 0 < i < k < |b| <= |a| <= TWO_TO_32 + 1
    requires a[..k] == b[..k]
    requires PathLengthTest(a, i)
    ensures PathLengthTest(b, i)
  {
    assert a[i - 1] == a[..k][i - 1] == b[..k][i - 1] == b[i - 1];
  }

  /**
   * Cache soundness. If the cached certificates have not expired by the returned expiries, and the new chain is no
   * longer than the cached one, then it is accepted with the earlier, smaller prefix and identical outputs;
   * otherwise the two chains exhibit a SHA-256 collision.
   */
  lemma CacheSound(p: Primitives, parser: DerParser, a: CertChain, j: nat, ts1: u64, b: CertChain, k: nat, ts2: u64)
    requires CacheHit(p, parser, a, j, ts1, b, k, ts2)
    requires |b.certs| <= |a.certs| <= TWO_TO_32 + 1
    requires forall i :: j <= i < k ==> ts2 / 1000 <= ChainResult(p, a, j, ts1).value.expiries[i]
    ensures var collision := CacheCollision(p, a, b, k);
            && PathDigest.Exhibits(p.sha256, a.Ders(), k - 1, b.Ders(), k - 1, collision)
            && (collision.None? ==> ChainResult(p, b, j, ts2) == ChainResult(p, b, k, ts2))
  {
    HitSharesPrefix(p, parser, a, j, ts1, b, k, ts2);
    if CacheCollision(p, a, b, k).None? {
      ChainResultExact(p, a, j, ts1);
      forall i | j <= i < k
        ensures ts2 / 1000 <= b.certs[i].cert.notAfter
        ensures i > 0 ==> PathLengthTest(b.certs, i)
      {
        assert b.certs[i] == b.certs[..k][i] == a.certs[..k][i] == a.certs[i];
        assert Validated(p, a.certs, ts1, i);
        if i > 0 {
          ShorterChainFitsLimits(a.certs, b.certs, k, i);
        }
      }
      CacheExact(p, parser, a, j, ts1, b, k, ts2);
    }
  }
}
