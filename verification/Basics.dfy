/** Shared vocabulary: optional values, results, machine integers and big-endian words. */
module Basics {

  datatype Option<+T> = None | Some(value: T)

  /** The outcome of a fallible operation; usable with `:-`. */
  datatype Result<+T, +E> = Ok(value: T) | Err(error: E) {
    predicate IsFailure() {
      Err?
    }

    function PropagateFailure<U>(): Result<U, E>
      requires Err?
    {
      Err(error)
    }

    function Extract(): T
      requires Ok?
    {
      value
    }
  }

  const TWO_TO_32: int := 0x1_0000_0000
  const TWO_TO_63: int := 0x8000_0000_0000_0000
  const TWO_TO_64: int := 0x1_0000_0000_0000_0000

  type byte = n: int | 0 <= n < 256
  type u8 = n: int | 0 <= n < 256
  type u32 = n: int | 0 <= n < TWO_TO_32
  type u64 = n: int | 0 <= n < TWO_TO_64
  type i64 = n: int | -TWO_TO_63 <= n < TWO_TO_63

  /** A byte vector whose length fits the machine's 64-bit length type. */
  type Blob = s: seq<byte> | |s| < TWO_TO_64

  /** A 32-byte word: a digest or one slot of an ABI encoding. */
  type B256 = s: seq<byte> | |s| == 32 witness Zeros(32)

  function Zeros(n: nat): (s: seq<byte>)
    ensures |s| == n
    ensures forall i :: 0 <= i < n ==> s[i] == 0
  {
    seq(n, _ => 0)
  }

  /** The narrowing cast `x as u32`. */
  function AsU32(x: nat): u32 {
    x % TWO_TO_32
  }

  /** The reinterpreting cast `x as i64` of an unsigned 64-bit value. */
  function AsI64(x: u64): i64 {
    if x < TWO_TO_63 then x else x - TWO_TO_64
  }

  function Max(a: int, b: int): int {
    if a >= b then a else b
  }

  /** 256 to the power `w`: the number of values that `w` bytes can hold. */
  function Pow256(w: nat): (p: nat)
    ensures p >= 1
  {
    if w == 0 then 1 else 256 * Pow256(w - 1)
  }

  /** The `w` low-order bytes of `n`, most significant first. */
  function BigEndian(n: nat, w: nat): (s: seq<byte>)
    ensures |s| == w
  {
    if w == 0 then [] else BigEndian(n / 256, w - 1) + [n % 256]
  }

  function FromBigEndian(s: seq<byte>): nat {
    if s == [] then 0 else FromBigEndian(s[..|s| - 1]) * 256 + s[|s| - 1]
  }

  lemma {:induction false} BigEndianRoundTrip(n: nat, w: nat)
    requires n < Pow256(w)
    ensures FromBigEndian(BigEndian(n, w)) == n
  {
    if w > 0 {
      BigEndianRoundTrip(n / 256, w - 1);
      assert BigEndian(n, w)[..w - 1] == BigEndian(n / 256, w - 1);
    }
  }

  lemma SmallPowers()
    ensures Pow256(0) == 1 && Pow256(1) == 0x100 && Pow256(2) == 0x1_0000 && Pow256(3) == 0x100_0000
    ensures Pow256(4) == 0x1_0000_0000 && Pow256(5) == 0x100_0000_0000 && Pow256(6) == 0x1_0000_0000_0000
    ensures Pow256(7) == 0x100_0000_0000_0000
  {
    assert Pow256(2) == 256 * Pow256(1) && Pow256(4) == 256 * Pow256(3) && Pow256(6) == 256 * Pow256(5);
  }

  /** Byte `i` of `w` is the digit of weight 256 to the power `w - 1 - i`. */
  lemma {:induction false} BigEndianDigit(n: nat, w: nat, i: nat)
    requires i < w
    ensures BigEndian(n, w)[i] == n / Pow256(w - 1 - i) % 256
    decreases w
  {
    if i < w - 1 {
      BigEndianDigit(n / 256, w - 1, i);
      DivideTwice(n, Pow256(w - 2 - i));
    }
  }

  lemma DivideTwice(n: nat, p: nat)
    requires p > 0
    ensures n / 256 / p == n / (256 * p)
  {
    var q, r := n / (256 * p), n % (256 * p);
    assert n == q * (256 * p) + r;
    assert n / 256 == q * p + r / 256 by {
      assert q * (256 * p) == 256 * (q * p);
    }
    assert r / 256 < p;
    DivideExact(n / 256, q, p, r / 256);
  }

  lemma DivideExact(n: nat, q: nat, p: nat, r: nat)
    requires n == q * p + r && r < p
    ensures n / p == q
  {
    var k := n / p;
    assert n == k * p + n % p;
    if k < q {
      MultiplyMonotone(k + 1, q, p);
    } else if q < k {
      MultiplyMonotone(q + 1, k, p);
    }
  }

  lemma MultiplyMonotone(a: nat, b: nat, p: nat)
    requires a <= b
    ensures a * p <= b * p
  {
  }

  lemma {:induction false} BigEndianOfBytes(s: seq<byte>)
    ensures BigEndian(FromBigEndian(s), |s|) == s
  {
    if s != [] {
      BigEndianOfBytes(s[..|s| - 1]);
    }
  }

  /** The positional law: what comes first weighs more, by one factor of 256 for each byte after it. */
  lemma {:induction false} BigEndianIsPositional(s: seq<byte>, t: seq<byte>)
    ensures FromBigEndian(s + t) == FromBigEndian(s) * Pow256(|t|) + FromBigEndian(t)
    decreases |t|
  {
    if t == [] {
      assert s + t == s;
    } else {
      var n := |t| - 1;
      var last := t[n];
      assert (s + t)[..|s + t| - 1] == s + t[..n] && (s + t)[|s + t| - 1] == last;
      BigEndianIsPositional(s, t[..n]);
      Shift(FromBigEndian(s), Pow256(n), FromBigEndian(t[..n]), last);
    }
  }

  lemma Shift(x: nat, p: nat, y: nat, digit: nat)
    ensures (x * p + y) * 256 + digit == x * (256 * p) + (y * 256 + digit)
  {
    assert x * p * 256 == x * (256 * p);
  }

  lemma {:induction false} FromBigEndianBound(s: seq<byte>)
    ensures FromBigEndian(s) < Pow256(|s|)
  {
    if s != [] {
      FromBigEndianBound(s[..|s| - 1]);
    }
  }

  lemma {:induction false} Pow256Monotone(v: nat, w: nat)
    requires v <= w
    ensures Pow256(v) <= Pow256(w)
  {
    if v < w {
      Pow256Monotone(v, w - 1);
    }
  }

  lemma Pow256Widths()
    ensures Pow256(1) == 0x100
    ensures Pow256(2) == 0x1_0000
    ensures Pow256(4) == TWO_TO_32
    ensures Pow256(8) == TWO_TO_64
  {
    assert Pow256(1) == 0x100;
    assert Pow256(3) == 0x100_0000;
    assert Pow256(5) == 0x100_0000_0000;
    assert Pow256(7) == 0x100_0000_0000_0000;
  }
}
