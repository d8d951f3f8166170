/**
 Long division with a remainder register of 128 bits: which quotient bits come out when the
 remainder may outgrow the register.
 */
module LongDivision {
  import opened Numbers
  import opened Words

  /** The remainder that belongs to the first i quotient bits q, as far as it fits. */
  function Rest(ma: nat, mb: nat, q: nat, i: nat): nat {
    (Pow2(i) * ma - q * mb) % TWO128
  }

  /** The first k of n quotient bits. */
  function Leading(q: nat, n: nat, k: nat): nat
    requires k <= n
  {
    Quotient(q, Pow2(n - k))
  }

  function Quotient(x: nat, p: nat): nat
    requires p > 0
  {
    x / p
  }

  /** Each of the n bits of q is set exactly if the doubled remainder, as far as it fits, holds
      the divisor. */
  predicate DivisionBits(ma: nat, mb: nat, q: nat, n: nat) {
    q < Pow2(n) && forall k :: 0 <= k < n ==> BitRight(ma, mb, q, n, k)
  }

  predicate BitRight(ma: nat, mb: nat, q: nat, n: nat, k: nat)
    requires k < n
  {
    Leading(q, n, k + 1) % 2 == 1 <==> (2 * Rest(ma, mb, Leading(q, n, k), k)) % TWO128 >= mb
  }

  /** x is the quotient of 113 bits, rounded by the bit after them. */
  ghost predicate RoundedQuotient(ma: nat, mb: nat, x: nat) {
    exists w: nat :: DivisionBits(ma, mb, w, 114) && x == w / 2 + w % 2
  }

  lemma {:induction false} DivisionStart(ma: nat, mb: nat)
    requires ma < TWO128
    ensures DivisionBits(ma, mb, 0, 0) && Rest(ma, mb, 0, 0) == ma
  {
    assert Pow2(0) == 1;
    SmallMod(ma, TWO128);
  }

  lemma {:induction false} DoubledRest(x: int, m: nat, w: nat)
    requires m < w
    ensures (2 * (x % w)) % w == (2 * x) % w
    ensures (2 * x) % w >= m ==> (2 * x - m) % w == (2 * x) % w - m
  {
    var k, y := x / w, 2 * x;
    assert x == k * w + x % w;
    assert 2 * (k * w) == (2 * k) * w;
    ModShift(2 * (x % w), 2 * k, w);
    var j := y / w;
    assert y == j * w + y % w;
    if y % w >= m {
      DivModUnique(y - m, w, j, y % w - m);
    }
  }

  lemma {:induction false} RestStep(ma: nat, mb: nat, q: nat, i: nat, bit: nat)
    requires mb < TWO128 && bit <= 1 && (bit == 1 ==> (2 * Rest(ma, mb, q, i)) % TWO128 >= mb)
    ensures Rest(ma, mb, 2 * q + bit, i + 1) == (2 * Rest(ma, mb, q, i)) % TWO128 - bit * mb
  {
    PowDouble(i);
    hide Pow2;
    var x := Pow2(i) * ma - q * mb;
    assert Pow2(i + 1) * ma == 2 * (Pow2(i) * ma);
    assert (2 * q + bit) * mb == 2 * (q * mb) + bit * mb;
    DoubledRest(x, mb, TWO128);
  }

  /** One bit more at the end does not change the leading ones. */
  lemma {:induction false} LeadingStep(q: nat, n: nat, k: nat, bit: nat)
    requires k <= n && bit <= 1
    ensures Leading(2 * q + bit, n + 1, k) == Leading(q, n, k)
    ensures Leading(q, n, n) == q
  {
    assert Pow2(0) == 1;
    PowDouble(n - k);
    hide Pow2;
    HalfFirst(2 * q + bit, Pow2(n - k));
  }

  lemma {:induction false} HalfFirst(m: nat, p: nat)
    requires p > 0
    ensures m / (2 * p) == (m / 2) / p
  {
    var (h, b) := (m / 2, m % 2);
    var (q, r) := (h / p, h % p);
    assert h == q * p + r;
    assert q * (2 * p) == 2 * (q * p);
    DivModUnique(m, 2 * p, q, 2 * r + b);
  }

  lemma {:induction false} DivisionStep(ma: nat, mb: nat, q: nat, n: nat, bit: nat)
    requires DivisionBits(ma, mb, q, n) && bit <= 1 && mb < TWO128
    requires bit == 1 <==> (2 * Rest(ma, mb, q, n)) % TWO128 >= mb
    ensures DivisionBits(ma, mb, 2 * q + bit, n + 1)
    ensures Rest(ma, mb, 2 * q + bit, n + 1) == (2 * Rest(ma, mb, q, n)) % TWO128 - bit * mb
  {
    PowDouble(n);
    RestStep(ma, mb, q, n, bit);
    hide Pow2, Rest, Leading;
    var (q', n') := (2 * q + bit, n + 1);
    LeadingStep(q', n', n', 0);
    forall k | 0 <= k < n'
      ensures BitRight(ma, mb, q', n', k)
    {
      LeadingStep(q, n, k, bit);
      if k < n {
        LeadingStep(q, n, k + 1, bit);
        assert BitRight(ma, mb, q, n, k);
      }
    }
  }
}
