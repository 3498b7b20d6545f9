/** Powers of two, alignment, and little-endian byte strings shared by the other modules. */
module Bits {

  type byte = b: int | 0 <= b < 256

  /** 2^64, the modulus of every `uint64_t` and `size_t` in the source. */
  const TWO64: nat := 0x1_0000_0000_0000_0000

  function Pow2(n: nat): (p: nat)
    ensures p >= 1
  {
    if n == 0 then 1 else 2 * Pow2(n - 1)
  }

  lemma {:induction false} Pow2Add(a: nat, b: nat)
    ensures Pow2(a + b) == Pow2(a) * Pow2(b)
  {
    if a == 0 {
    } else {
      Pow2Add(a - 1, b);
    }
  }

  lemma {:induction false} Pow2Monotone(a: nat, b: nat)
    requires a <= b
    ensures Pow2(a) <= Pow2(b)
  {
    if a < b {
      Pow2Monotone(a, b - 1);
    }
  }

  lemma MulMonotone(a: int, b: int, c: int)
    requires a <= b && 0 <= c
    ensures a * c <= b * c
  {
  }

  lemma MulStrict(a: int, b: int, c: int)
    requires a < b && 0 < c
    ensures a * c < b * c
  {
  }

  /** `x >> p` */
  function Shr(x: nat, p: nat): nat {
    DivNonNegative(x, Pow2(p));
    x / Pow2(p)
  }

  lemma DivNonNegative(x: nat, d: nat)
    requires d > 0
    ensures x / d >= 0
  {
  }

  /** `x & ((1 << p) - 1)` */
  function Low(x: nat, p: nat): nat {
    x % Pow2(p)
  }

  lemma ShrLow(x: nat, p: nat)
    ensures x == Shr(x, p) * Pow2(p) + Low(x, p)
    ensures Low(x, p) < Pow2(p)
  {
    hide Pow2;
  }

  // ------------------------------------------------------------------------------------------
  // Alignment and little-endian fields.

  /** ALIGN_OF(x, 8) */
  function Align8(x: nat): (y: nat)
    ensures x <= y < x + 8 && y % 8 == 0
  {
    if x % 8 == 0 then x else (x / 8 + 1) * 8
  }

  function Pow256(k: nat): (p: nat)
    ensures p >= 1
  {
    if k == 0 then 1 else 256 * Pow256(k - 1)
  }

  /** The low `k` bytes of `n`, lowest first. */
  function ToLE(n: nat, k: nat): (bs: seq<byte>)
    ensures |bs| == k
    decreases k
  {
    if k == 0 then [] else [n % 256] + ToLE(n / 256, k - 1)
  }

  /** Byte `i` has weight 256^i. */
  lemma {:induction false} ByteOf(n: nat, k: nat, i: nat)
    requires i < k
    ensures ToLE(n, k)[i] == n / Pow256(i) % 256
    decreases k
  {
    if i > 0 {
      ByteOf(n / 256, k - 1, i - 1);
      DivTwice(n, 256, Pow256(i - 1));
    }
  }

  lemma DivTwice(n: nat, a: nat, b: nat)
    requires a > 0 && b > 0
    ensures a * b > 0 && n / a / b == n / (a * b)
  {
    var q := n / a / b;
    var r, s := n % a, n / a % b;
    assert n / a == q * b + s;
    assert n == (q * b + s) * a + r;
    assert (q * b + s) * a == q * (a * b) + s * a;
    assert s * a + r < a * b by { MulMonotone(s + 1, b, a); }
    QuotientIs(n, a * b, q, s * a + r);
  }

  lemma QuotientIs(n: nat, d: nat, q: nat, r: nat)
    requires n == q * d + r && r < d
    ensures n / d == q
  {
    var p := n / d;
    assert n == p * d + n % d;
    if p < q {
      MulMonotone(p + 1, q, d);
    } else if q < p {
      MulMonotone(q + 1, p, d);
    }
  }

  function FromLE(bs: seq<byte>): nat {
    if bs == [] then 0 else bs[0] + 256 * FromLE(bs[1..])
  }

  lemma {:induction false} FromToLE(n: nat, k: nat)
    requires n < Pow256(k)
    ensures FromLE(ToLE(n, k)) == n
    decreases k
  {
    if k > 0 {
      FromToLE(n / 256, k - 1);
      assert ToLE(n, k)[1..] == ToLE(n / 256, k - 1);
    }
  }

  lemma {:induction false} ToFromLE(bs: seq<byte>)
    ensures FromLE(bs) < Pow256(|bs|) && ToLE(FromLE(bs), |bs|) == bs
  {
    if bs != [] {
      ToFromLE(bs[1..]);
      var r := FromLE(bs[1..]);
      assert (bs[0] + 256 * r) / 256 == r && (bs[0] + 256 * r) % 256 == bs[0];
      assert [bs[0]] + bs[1..] == bs;
    }
  }

  lemma Pow256Values()
    ensures Pow256(4) == 0x1_0000_0000 && Pow256(8) == TWO64
  {
  }

  /** `was` with `data` over the part from `at` on. */
  function Splice(was: seq<byte>, at: nat, data: seq<byte>): (now: seq<byte>)
    requires at + |data| <= |was|
    ensures |now| == |was|
  {
    was[..at] + data + was[at + |data|..]
  }

  lemma SpliceIs(was: seq<byte>, at: nat, data: seq<byte>, now: seq<byte>)
    requires at + |data| <= |was| == |now|
    requires forall j :: 0 <= j < |data| ==> now[at + j] == data[j]
    requires forall j :: 0 <= j < |was| && !(at <= j < at + |data|) ==> now[j] == was[j]
    ensures now == Splice(was, at, data)
  {
    forall j | 0 <= j < |was|
      ensures now[j] == Splice(was, at, data)[j]
    {
      if at <= j < at + |data| {
        assert now[at + (j - at)] == data[j - at];
      }
    }
  }
}
