/** Accumulated path digests of a certificate chain, and what they bind. */
module PathDigest {
  import opened Basics

  /** SHA-256, kept as an arbitrary function into 32 bytes. */
  type Hash = seq<byte> -> B256

  /** The accumulated digest of the certificates up to and including index `i`. */
  function DigestAt(h: Hash, ders: seq<seq<byte>>, i: nat): B256
    requires i < |ders|
  {
    if i == 0 then h(ders[0]) else h(DigestAt(h, ders, i - 1) + h(ders[i]))
  }

  function PathDigests(h: Hash, ders: seq<seq<byte>>): (ds: seq<B256>)
    ensures |ds| == |ders|
  {
    seq(|ders|, i requires 0 <= i < |ders| => DigestAt(h, ders, i))
  }

  /** The loop of `compute_path_digests`. */
  method ComputePathDigests(h: Hash, ders: seq<seq<byte>>) returns (digests: seq<B256>)
    ensures digests == PathDigests(h, ders)
    ensures |digests| == |ders|
    ensures ders != [] ==> digests[0] == h(ders[0])
    ensures forall i :: 0 < i < |ders| ==> digests[i] == h(digests[i - 1] + h(ders[i]))
  {
    digests := [];
    var pathDigest: B256 := Zeros(32);
    for i := 0 to |ders|
      invariant digests == PathDigests(h, ders)[..i]
      invariant i > 0 ==> pathDigest == DigestAt(h, ders, i - 1)
    {
      var certDigest := h(ders[i]);
      if i == 0 {
        pathDigest := certDigest;
      } else {
        pathDigest := h(pathDigest + certDigest);
      }
      digests := digests + [pathDigest];
    }
  }

  /** `ds` accumulates the hashes of `ders`: the first is a hash, each later one hashes its predecessor and a hash. */
  lemma PathDigestsAccumulate(h: Hash, ders: seq<seq<byte>>)
    ensures var ds := PathDigests(h, ders);
            && |ds| == |ders|
            && (ders != [] ==> ds[0] == h(ders[0]))
            && forall i :: 0 < i < |ders| ==> ds[i] == h(ds[i - 1] + h(ders[i]))
  {
  }

  /** A digest depends only on the certificates up to its own index. */
  lemma {:induction false} DigestDependsOnPrefix(h: Hash, a: seq<seq<byte>>, b: seq<seq<byte>>, i: nat)
    requires i < |a| && i < |b|
    requires a[..i + 1] == b[..i + 1]
    ensures DigestAt(h, a, i) == DigestAt(h, b, i)
  {
    assert a[i] == a[..i + 1][i] == b[..i + 1][i] == b[i];
    if i > 0 {
      assert a[..i] == a[..i + 1][..i] == b[..i + 1][..i] == b[..i];
      DigestDependsOnPrefix(h, a, b, i - 1);
    }
  }

  // ----- Composition -----

  /** Continues the accumulation from a digest that is already known. */
  function Extend(h: Hash, seed: B256, ders: seq<seq<byte>>): (ds: seq<B256>)
    ensures |ds| == |ders|
    decreases |ders|
  {
    if ders == [] then []
    else
      var next := h(seed + h(ders[0]));
      [next] + Extend(h, next, ders[1..])
  }

  /** One step of the accumulation. */
  lemma DigestNext(h: Hash, a: seq<seq<byte>>, b: seq<seq<byte>>)
    requires a != [] && b != []
    ensures DigestAt(h, a + b, |a|) == DigestAt(h, a + [b[0]], |a|) == h(DigestAt(h, a, |a| - 1) + h(b[0]))
  {
    var n := |a|;
    assert (a + b)[..n] == a[..n] == (a + [b[0]])[..n];
    DigestDependsOnPrefix(h, a + b, a, n - 1);
    DigestDependsOnPrefix(h, a + [b[0]], a, n - 1);
  }

  lemma {:induction false} ExtendAt(h: Hash, a: seq<seq<byte>>, b: seq<seq<byte>>, k: nat)
    requires a != []
    requires k < |b|
    ensures DigestAt(h, a + b, |a| + k) == Extend(h, DigestAt(h, a, |a| - 1), b)[k]
    decreases k
  {
    hide DigestAt;
    DigestNext(h, a, b);
    if k > 0 {
      var a' := a + [b[0]];
      assert a' + b[1..] == a + b && |a'| + (k - 1) == |a| + k;
      ExtendAt(h, a', b[1..], k - 1);
    }
  }

  /** The digests of a concatenation: those of the first part, then an accumulation that needs only its last digest. */
  lemma DigestsCompose(h: Hash, a: seq<seq<byte>>, b: seq<seq<byte>>)
    requires a != []
    ensures PathDigests(h, a + b) == PathDigests(h, a) + Extend(h, DigestAt(h, a, |a| - 1), b)
  {
    var whole, parts := PathDigests(h, a + b), PathDigests(h, a) + Extend(h, DigestAt(h, a, |a| - 1), b);
    forall i | 0 <= i < |a + b|
      ensures whole[i] == parts[i]
    {
      if i < |a| {
        assert (a + b)[..i + 1] == a[..i + 1];
        DigestDependsOnPrefix(h, a + b, a, i);
      } else {
        ExtendAt(h, a, b, i - |a|);
      }
    }
  }

  // ----- Binding: equal digests mean equal chains, or a collision that can be exhibited -----

  /** Two different strings with the same hash. */
  datatype Pair = Pair(left: seq<byte>, right: seq<byte>)

  predicate IsCollision(h: Hash, p: Pair) {
    p.left != p.right && h(p.left) == h(p.right)
  }

  /** The strings that computing the digest at index `i` feeds to the hash. */
  ghost function Hashed(h: Hash, ders: seq<seq<byte>>, i: nat): set<seq<byte>>
    requires i < |ders|
  {
    if i == 0 then {ders[0]}
    else Hashed(h, ders, i - 1) + {ders[i], DigestAt(h, ders, i - 1) + h(ders[i])}
  }

  /** Compares the last hashing step of two digests, then the step before, until the inputs differ. */
  function FindCollision(h: Hash, a: seq<seq<byte>>, i: nat, b: seq<seq<byte>>, j: nat): Option<Pair>
    requires i < |a| && j < |b|
    decreases i
  {
    var x := if i == 0 then a[0] else DigestAt(h, a, i - 1) + h(a[i]);
    var y := if j == 0 then b[0] else DigestAt(h, b, j - 1) + h(b[j]);
    if x != y then Some(Pair(x, y))
    else if i == 0 || j == 0 then None
    else if a[i] != b[j] then Some(Pair(a[i], b[j]))
    else FindCollision(h, a, i - 1, b, j - 1)
  }

  /** Whatever pair the search returns is a collision between strings that were hashed for the two digests. */
  ghost predicate Exhibits(h: Hash, a: seq<seq<byte>>, i: nat, b: seq<seq<byte>>, j: nat, c: Option<Pair>)
    requires i < |a| && j < |b|
  {
    c.Some? ==> IsCollision(h, c.value) && c.value.left in Hashed(h, a, i) && c.value.right in Hashed(h, b, j)
  }

  lemma {:induction false} FindCollisionSound(h: Hash, a: seq<seq<byte>>, i: nat, b: seq<seq<byte>>, j: nat)
    requires i < |a| && j < |b|
    requires DigestAt(h, a, i) == DigestAt(h, b, j)
    ensures Exhibits(h, a, i, b, j, FindCollision(h, a, i, b, j))
    decreases i
  {
    if i > 0 && j > 0 {
      var x, y := DigestAt(h, a, i - 1) + h(a[i]), DigestAt(h, b, j - 1) + h(b[j]);
      if x == y {
        assert x[..32] == DigestAt(h, a, i - 1) && x[32..] == h(a[i]);
        assert y[..32] == DigestAt(h, b, j - 1) && y[32..] == h(b[j]);
        if a[i] == b[j] {
          FindCollisionSound(h, a, i - 1, b, j - 1);
        }
      }
    }
  }

  /** The same for digests read out of two digest vectors. */
  lemma VectorEntryCollision(h: Hash, a: seq<seq<byte>>, b: seq<seq<byte>>, i: nat)
    requires i < |a| && i < |b|
    requires PathDigests(h, a)[i] == PathDigests(h, b)[i]
    ensures Exhibits(h, a, i, b, i, FindCollision(h, a, i, b, i))
  {
    FindCollisionSound(h, a, i, b, i);
  }

  lemma PrefixStep<T>(a: seq<T>, b: seq<T>, i: nat)
    requires i < |a| && i < |b|
    ensures a[..i + 1] == b[..i + 1] <==> a[..i] == b[..i] && a[i] == b[i]
  {
    assert a[..i + 1] == a[..i] + [a[i]] && b[..i + 1] == b[..i] + [b[i]];
  }

  /** Equal digests of equally long chains: the search succeeds exactly when the chains differ. */
  lemma {:induction false} EqualLengthBinding(h: Hash, a: seq<seq<byte>>, b: seq<seq<byte>>, i: nat)
    requires i < |a| && i < |b|
    requires DigestAt(h, a, i) == DigestAt(h, b, i)
    ensures FindCollision(h, a, i, b, i).None? <==> a[..i + 1] == b[..i + 1]
    ensures Exhibits(h, a, i, b, i, FindCollision(h, a, i, b, i))
  {
    FindCollisionSound(h, a, i, b, i);
    PrefixStep(a, b, i);
    if i > 0 {
      var p, q := DigestAt(h, a, i - 1), DigestAt(h, b, i - 1);
      var x, y := p + h(a[i]), q + h(b[i]);
      if x == y {
        assert x[..32] == p && y[..32] == q;
        EqualLengthBinding(h, a, b, i - 1);
      } else if a[..i] == b[..i] {
        DigestDependsOnPrefix(h, a, b, i - 1);
      }
    }
  }

  /**
   * The shorter chain ends like the longer one, and its first certificate is itself the 64-byte string that the
   * longer chain hashes at the corresponding step.
   */
  predicate Disguised(h: Hash, a: seq<seq<byte>>, i: nat, b: seq<seq<byte>>, j: nat)
    requires i < |a| && i < j < |b|
  {
    && a[0] == DigestAt(h, b, j - i - 1) + h(b[j - i])
    && forall t :: 1 <= t <= i ==> a[t] == b[j - i + t]
  }

  /** Equal digests of chains of different lengths: the search fails exactly on a disguised chain. */
  lemma {:induction false} UnequalLengthExact(h: Hash, a: seq<seq<byte>>, i: nat, b: seq<seq<byte>>, j: nat)
    requires i < |a| && i < j < |b|
    requires DigestAt(h, a, i) == DigestAt(h, b, j)
    ensures FindCollision(h, a, i, b, j).None? <==> Disguised(h, a, i, b, j)
    decreases i
  {
    if i > 0 {
      var p, q := DigestAt(h, a, i - 1), DigestAt(h, b, j - 1);
      var x, y := p + h(a[i]), q + h(b[j]);
      DisguisedStep(h, a, i, b, j);
      if x == y {
        assert x[..32] == p && y[..32] == q;
        UnequalLengthExact(h, a, i - 1, b, j - 1);
      } else if Disguised(h, a, i - 1, b, j - 1) {
        DisguiseKeepsDigest(h, a, i - 1, b, j - 1);
      }
    }
  }

  lemma DisguisedStep(h: Hash, a: seq<seq<byte>>, i: nat, b: seq<seq<byte>>, j: nat)
    requires 0 < i < |a| && i < j < |b|
    ensures Disguised(h, a, i, b, j) <==> Disguised(h, a, i - 1, b, j - 1) && a[i] == b[j]
  {
    assert j - i == j - 1 - (i - 1);
  }

  lemma {:induction false} DisguiseKeepsDigest(h: Hash, a: seq<seq<byte>>, i: nat, b: seq<seq<byte>>, j: nat)
    requires i < |a| && i < j < |b|
    requires Disguised(h, a, i, b, j)
    ensures DigestAt(h, a, i) == DigestAt(h, b, j)
    decreases i
  {
    if i > 0 {
      DisguisedStep(h, a, i, b, j);
      DisguiseKeepsDigest(h, a, i - 1, b, j - 1);
    }
  }

  /** No real certificate is 64 bytes long, so in practice a collision always comes out. */
  lemma UnequalLengthBinding(h: Hash, a: seq<seq<byte>>, i: nat, b: seq<seq<byte>>, j: nat)
    requires i < |a| && i < j < |b|
    requires |a[0]| != 64
    requires DigestAt(h, a, i) == DigestAt(h, b, j)
    ensures FindCollision(h, a, i, b, j).Some?
    ensures Exhibits(h, a, i, b, j, FindCollision(h, a, i, b, j))
  {
    UnequalLengthExact(h, a, i, b, j);
    FindCollisionSound(h, a, i, b, j);
  }

  /** Disguise is possible: no hash function tells these two chains apart by their last digest. */
  lemma DisguisedPair(h: Hash, x: seq<byte>, y: seq<byte>)
    ensures var a, b := [h(x) + h(y)], [x, y];
            && DigestAt(h, a, 0) == DigestAt(h, b, 1)
            && FindCollision(h, a, 0, b, 1) == None
  {
    var a, b := [h(x) + h(y)], [x, y];
    assert DigestAt(h, b, 0) == h(x);
    DisguiseKeepsDigest(h, a, 0, b, 1);
    UnequalLengthExact(h, a, 0, b, 1);
  }

  /** No string hashed for the digest at `i` of `a` collides with one hashed for the digest at `j` of `b`. */
  ghost predicate NoCollision(h: Hash, a: seq<seq<byte>>, i: nat, b: seq<seq<byte>>, j: nat)
    requires i < |a| && j < |b|
  {
    forall s, t :: s in Hashed(h, a, i) && t in Hashed(h, b, j) ==> !IsCollision(h, Pair(s, t))
  }

  /**
   * Every hash has such a pair with no collision at all behind it: two chains of different lengths with the same
   * last digest although no two different strings that were hashed for them have the same hash.
   */
  lemma SixtyFourByteAmbiguity(h: Hash) returns (a: seq<seq<byte>>, b: seq<seq<byte>>)
    ensures |a| == 1 && |b| == 2
    ensures DigestAt(h, a, 0) == DigestAt(h, b, 1)
    ensures NoCollision(h, a, 0, b, 1) && FindCollision(h, a, 0, b, 1) == None
  {
    // Either `x` does not collide with `y`, or `y` is h(y) + h(y) and the only string hashed.
    var x: seq<byte> := [];
    var y := h(x) + h(x);
    var z := if h(y) == h(x) then y else x;
    a, b := [y], [z, z];
    assert h(z) + h(z) == y;
    assert Hashed(h, b, 0) == {z} && Hashed(h, b, 1) == {z, y};
    DisguisedPair(h, z, z);
  }

  /** Equal last digests of equally long chains. */
  lemma WholeChainBinding(h: Hash, a: seq<seq<byte>>, b: seq<seq<byte>>)
    requires a != [] && |a| == |b|
    requires DigestAt(h, a, |a| - 1) == DigestAt(h, b, |b| - 1)
    ensures FindCollision(h, a, |a| - 1, b, |b| - 1).None? <==> a == b
    ensures Exhibits(h, a, |a| - 1, b, |b| - 1, FindCollision(h, a, |a| - 1, b, |b| - 1))
  {
    var n := |a| - 1;
    assert a[..n + 1] == a && b[..n + 1] == b;
    EqualLengthBinding(h, a, b, n);
  }

  /** Equal digest vectors mean equal lengths, so they bind the whole chain with no side condition. */
  lemma DigestVectorBinding(h: Hash, a: seq<seq<byte>>, b: seq<seq<byte>>)
    requires PathDigests(h, a) == PathDigests(h, b)
    ensures |a| == |b|
    ensures a != [] ==> (FindCollision(h, a, |a| - 1, b, |b| - 1).None? <==> a == b)
    ensures a != [] ==> Exhibits(h, a, |a| - 1, b, |b| - 1, FindCollision(h, a, |a| - 1, b, |b| - 1))
  {
    var da, db := PathDigests(h, a), PathDigests(h, b);
    assert |da| == |a| && |db| == |b|;
    if a != [] {
      assert da[|a| - 1] == db[|a| - 1];
      WholeChainBinding(h, a, b);
    }
  }
}
