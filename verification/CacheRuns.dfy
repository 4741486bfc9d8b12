/** Caching of verified certificate prefixes across reports: single hits, and whole runs of them. */
module CacheRuns {
  import opened Basics
  import opened Errors
  import opened X509
  import opened Journal
  import opened Attestation
  import opened Verifier
  import CacheSoundness
  import PathDigest

  // ----- Single hits -----

  /**
   * The journal of `a` vouches for the trusted prefix of `b`: the cached digest is the one `b` starts from, `b` is
   * no longer and no earlier, and nothing from `base` on in the prefix has expired since.
   */
  ghost predicate Vouches(env: Environment, a: VerifierInput, b: VerifierInput, base: u8) {
    && Verify(env, a).Ok? && Verify(env, b).Ok?
    && var ja, jb, k := Verify(env, a).value, Verify(env, b).value, b.trustedCertsPrefixLen;
       && base <= k && 1 <= k < |jb.certs| <= |ja.certs| <= TWO_TO_32 + 1
       && |ja.certs| == |ja.certExpiries|
       && ja.certs[k - 1] == jb.certs[k - 1]
       && ja.timestamp <= jb.timestamp
       && forall i :: base <= i < k ==> jb.timestamp / 1000 <= ja.certExpiries[i]
  }

  /** The collision, if any, behind the digest that `b` was accepted on. */
  function HitCollision(env: Environment, a: VerifierInput, b: VerifierInput): Option<PathDigest.Pair>
    requires Verify(env, a).Ok? && Verify(env, b).Ok?
  {
    var x, y := CertChainDer(ReportOf(env, a).doc), CertChainDer(ReportOf(env, b).doc);
    var k := b.trustedCertsPrefixLen;
    if 1 <= k <= |x| && k <= |y| then PathDigest.FindCollision(env.crypto.sha256, x, k - 1, y, k - 1) else None
  }

  /** The outcome of verifying `input` with the trusted prefix `base` instead of its own. */
  function Reverified(env: Environment, input: VerifierInput, base: u8): Result<VerifierJournal, VerifierError> {
    Verify(env, input.(trustedCertsPrefixLen := base))
  }

  /** The same journal, but for the prefix it records. */
  predicate SameJournal(r: Result<VerifierJournal, VerifierError>, s: Result<VerifierJournal, VerifierError>,
                        base: u8)
  {
    r.Ok? && s == Ok(r.value.(trustedCertsPrefixLen := base))
  }

  /** The journal's digests and expiries are those of chain validation, one for each certificate of the document. */
  lemma JournalIsOutput(env: Environment, input: VerifierInput)
    requires Verify(env, input).Ok?
    ensures var j, chain := Verify(env, input).value, ChainOf(env, input);
            var r := ChainResultOf(env, input, input.trustedCertsPrefixLen);
            && chain.Ders() == CertChainDer(ReportOf(env, input).doc)
            && ParsedBy(env.derParser, chain)
            && r == Ok(ChainOutput(j.certs, j.certExpiries))
            && |j.certs| == |j.certExpiries| == |chain.certs|
            && j.timestamp == ReportOf(env, input).doc.timestamp
  {
    VerifyParts(env, input);
    VerifyWithPrefix(env, input, input.trustedCertsPrefixLen);
    assert input.(trustedCertsPrefixLen := input.trustedCertsPrefixLen) == input;
    ChainResultExact(env.crypto, ChainOf(env, input), input.trustedCertsPrefixLen, ReportOf(env, input).doc.timestamp);
  }

  lemma JournalDigests(env: Environment, input: VerifierInput)
    requires Verify(env, input).Ok?
    ensures Verify(env, input).value.certs
            == PathDigest.PathDigests(env.crypto.sha256, CertChainDer(ReportOf(env, input).doc))
  {
    JournalIsOutput(env, input);
    ChainResultExact(env.crypto, ChainOf(env, input), input.trustedCertsPrefixLen, ReportOf(env, input).doc.timestamp);
  }

  /** A collision found for a cache hit is one, between strings that were hashed for the two chains. */
  lemma HitCollisionGenuine(env: Environment, a: VerifierInput, b: VerifierInput, base: u8)
    requires Vouches(env, a, b, base)
    ensures HitCollision(env, a, b).Some? ==> PathDigest.IsCollision(env.crypto.sha256, HitCollision(env, a, b).value)
  {
    hide Verify, ReportOf, PathDigest.PathDigests, PathDigest.FindCollision;
    JournalDigests(env, a);
    JournalDigests(env, b);
    PathDigest.VectorEntryCollision(env.crypto.sha256, CertChainDer(ReportOf(env, a).doc),
                                    CertChainDer(ReportOf(env, b).doc), b.trustedCertsPrefixLen - 1);
  }

  /** What the journals say about a cache hit is what cache soundness asks of the chains. */
  lemma VouchedIsHit(env: Environment, a: VerifierInput, b: VerifierInput)
    requires Vouches(env, a, b, a.trustedCertsPrefixLen)
    ensures CacheSoundness.CacheHit(env.crypto, env.derParser,
                                    ChainOf(env, a), a.trustedCertsPrefixLen, ReportOf(env, a).doc.timestamp,
                                    ChainOf(env, b), b.trustedCertsPrefixLen, ReportOf(env, b).doc.timestamp)
    ensures |ChainOf(env, b).certs| <= |ChainOf(env, a).certs| <= TWO_TO_32 + 1
    ensures ChainResultOf(env, a, a.trustedCertsPrefixLen).Ok?
    ensures |ChainResultOf(env, a, a.trustedCertsPrefixLen).value.expiries| == |ChainOf(env, a).certs|
    ensures forall i :: a.trustedCertsPrefixLen <= i < b.trustedCertsPrefixLen ==>
                          ReportOf(env, b).doc.timestamp / 1000
                          <= ChainResultOf(env, a, a.trustedCertsPrefixLen).value.expiries[i]
    ensures CacheSoundness.CacheCollision(env.crypto, ChainOf(env, a), ChainOf(env, b), b.trustedCertsPrefixLen)
            == HitCollision(env, a, b)
  {
    hide Verify, ReportOf, ChainOf, ChainResult, PathDigest.FindCollision;
    JournalIsOutput(env, a);
    JournalIsOutput(env, b);
  }

  /**
   * Cache soundness, read off the journals alone. A report accepted on the strength of a cached prefix would also
   * have been accepted with the prefix that the caching report was verified with, and the journals would differ in
   * the recorded prefix only; otherwise the two certificate chains exhibit a SHA-256 collision.
   */
  lemma CachedVerificationSound(env: Environment, a: VerifierInput, b: VerifierInput)
    requires Vouches(env, a, b, a.trustedCertsPrefixLen)
    ensures HitCollision(env, a, b).Some? ==> PathDigest.IsCollision(env.crypto.sha256, HitCollision(env, a, b).value)
    ensures HitCollision(env, a, b).None? ==>
              SameJournal(Verify(env, b), Reverified(env, b, a.trustedCertsPrefixLen), a.trustedCertsPrefixLen)
  {
    hide Verify, ReportOf, ChainOf, ChainResult, HitCollision, CacheSoundness.CacheHit;
    HitCollisionGenuine(env, a, b, a.trustedCertsPrefixLen);
    if HitCollision(env, a, b).None? {
      VouchedIsHit(env, a, b);
      CacheSoundness.CacheSound(env.crypto, env.derParser,
                                ChainOf(env, a), a.trustedCertsPrefixLen, ReportOf(env, a).doc.timestamp,
                                ChainOf(env, b), b.trustedCertsPrefixLen, ReportOf(env, b).doc.timestamp);
      VerifyWithPrefix(env, b, b.trustedCertsPrefixLen);
      VerifyWithPrefix(env, b, a.trustedCertsPrefixLen);
    }
  }

  // ----- Runs -----

  /**
   * A run of accepted inputs: each was verified with the trusted prefix `base`, or was vouched for by one before it,
   * which may itself have been accepted from the cache.
   */
  ghost predicate VouchedRun(env: Environment, run: seq<VerifierInput>, base: u8) {
    forall t :: 0 <= t < |run| ==>
                  && Verify(env, run[t]).Ok?
                  && (run[t].trustedCertsPrefixLen == base
                      || exists s :: 0 <= s < t && Vouches(env, run[s], run[t], base))
  }

  /** No cache hit of the run rests on a collision. */
  ghost predicate CollisionFree(env: Environment, run: seq<VerifierInput>, base: u8)
    requires VouchedRun(env, run, base)
  {
    forall s, t :: 0 <= s < t < |run| && Vouches(env, run[s], run[t], base) ==>
                     HitCollision(env, run[s], run[t]).None?
  }

  /** Vouching does not depend on the prefix that the caching report was itself accepted with. */
  lemma VouchesFromBase(env: Environment, a: VerifierInput, b: VerifierInput, base: u8)
    requires Vouches(env, a, b, base)
    requires SameJournal(Verify(env, a), Reverified(env, a, base), base)
    ensures Vouches(env, a.(trustedCertsPrefixLen := base), b, base)
    ensures HitCollision(env, a.(trustedCertsPrefixLen := base), b) == HitCollision(env, a, b)
  {
    hide Verify, ParseReport, FromDer, PathDigest.FindCollision;
  }

  /**
   * Safety over whole runs: however long the caching goes on, and however cache hits build on cache hits, every
   * accepted report would have been accepted with the base prefix, with the same journal but for the prefix.
   */
  lemma {:induction false} RunSound(env: Environment, run: seq<VerifierInput>, base: u8, t: nat)
    requires VouchedRun(env, run, base) && CollisionFree(env, run, base)
    requires t < |run|
    ensures SameJournal(Verify(env, run[t]), Reverified(env, run[t], base), base)
    decreases t
  {
    if run[t].trustedCertsPrefixLen == base {
      assert run[t].(trustedCertsPrefixLen := base) == run[t];
      VerifyWithPrefix(env, run[t], base);
    } else {
      var s :| 0 <= s < t && Vouches(env, run[s], run[t], base);
      RunSound(env, run, base, s);
      VouchesFromBase(env, run[s], run[t], base);
      CachedVerificationSound(env, run[s].(trustedCertsPrefixLen := base), run[t]);
    }
  }

  /** A run that is not collision-free exhibits a collision. */
  lemma RunCollision(env: Environment, run: seq<VerifierInput>, base: u8)
    requires VouchedRun(env, run, base) && !CollisionFree(env, run, base)
    ensures exists s, t :: && 0 <= s < t < |run|
                           && HitCollision(env, run[s], run[t]).Some?
                           && PathDigest.IsCollision(env.crypto.sha256, HitCollision(env, run[s], run[t]).value)
  {
    var s, t :| 0 <= s < t < |run| && Vouches(env, run[s], run[t], base) && HitCollision(env, run[s], run[t]).Some?;
    HitCollisionGenuine(env, run[s], run[t], base);
  }
}
