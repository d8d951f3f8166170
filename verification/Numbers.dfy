/** Results of partial operations, shared by all components. */
module Wrappers {
  datatype Option<+T> = None | Some(value: T)
}

/** Powers of two and the arithmetic of C's unsigned words, written on natural numbers. */
module Numbers {
  type Byte = x: nat | x < 256

  function Pow2(n: nat): (p: nat)
    ensures p > 0
  {
    if n == 0 then 1 else 2 * Pow2(n - 1)
  }

  lemma {:induction false} PowDouble(n: nat)
    ensures Pow2(n + 1) == 2 * Pow2(n)
  {
  }

  lemma {:induction false} Pow2Add(a: nat, b: nat)
    ensures Pow2(a + b) == Pow2(a) * Pow2(b)
  {
    if a == 0 {
    } else {
      Pow2Add(a - 1, b);
      calc {
        Pow2(a + b);
        2 * Pow2(a - 1 + b);
        2 * (Pow2(a - 1) * Pow2(b));
        (2 * Pow2(a - 1)) * Pow2(b);
        Pow2(a) * Pow2(b);
      }
    }
  }

  lemma {:induction false} Pow2Monotone(a: nat, b: nat)
    requires a <= b
    ensures Pow2(a) <= Pow2(b)
    ensures a < b ==> 2 * Pow2(a) <= Pow2(b)
    decreases b - a
  {
    if a < b {
      Pow2Monotone(a + 1, b);
    }
  }

  lemma {:induction false} Pow2Eight(n: nat)
    ensures Pow2(n + 8) == 256 * Pow2(n)
  {
    assert Pow2(n + 8) == 2 * Pow2(n + 7) && Pow2(n + 7) == 2 * Pow2(n + 6);
    assert Pow2(n + 6) == 2 * Pow2(n + 5) && Pow2(n + 5) == 2 * Pow2(n + 4);
    assert Pow2(n + 4) == 2 * Pow2(n + 3) && Pow2(n + 3) == 2 * Pow2(n + 2);
    assert Pow2(n + 2) == 2 * Pow2(n + 1) && Pow2(n + 1) == 2 * Pow2(n);
  }

  lemma {:induction false} Pow2Values()
    ensures Pow2(1) == 2 && Pow2(8) == 0x100 && Pow2(16) == 0x1_0000
    ensures Pow2(32) == 0x1_0000_0000 && Pow2(64) == 0x1_0000_0000_0000_0000
  {
    assert Pow2(1) == 2 && Pow2(0) == 1;
    Pow2Eight(0);
    Pow2Eight(8);
    Pow2Eight(16);
    Pow2Eight(24);
    Pow2Eight(32);
    Pow2Eight(40);
    Pow2Eight(48);
    Pow2Eight(56);
  }

  lemma {:induction false} MulMonotone(a: int, b: int, c: int)
    requires a <= b && c >= 0
    ensures a * c <= b * c && c * a <= c * b
  {
  }

  /** Division by a positive number is determined by its quotient and remainder. */
  lemma {:induction false} DivModUnique(x: int, d: int, q: int, r: int)
    requires d > 0 && x == q * d + r && 0 <= r < d
    ensures x / d == q && x % d == r
  {
    var q' := x / d;
    var r' := x % d;
    assert x == q' * d + r' && 0 <= r' < d;
    assert (q' + 1) * d == q' * d + d;
    assert (q + 1) * d == q * d + d;
    if q' < q {
      MulMonotone(q' + 1, q, d);
    } else if q' > q {
      MulMonotone(q + 1, q', d);
    }
  }

  lemma {:induction false} SmallMod(x: int, d: int)
    requires d > 0 && -d <= x < d
    ensures x % d == if x >= 0 then x else x + d
    ensures x / d == if x >= 0 then 0 else -1
  {
    DivModUnique(x, d, if x >= 0 then 0 else -1, if x >= 0 then x else x + d);
  }

  /** Multiplying a by p inside a word of size p * q: x falls out, y stays. */
  lemma {:induction false} ShiftOut(a: nat, p: nat, q: nat, w: nat)
    requires p > 0 && q > 0 && p * q == w && a < w
    ensures a * p == (a / q) * w + (a % q) * p
    ensures (a % q) * p + p <= w && a / q < p
    ensures (a * p) % w == (a % q) * p
  {
    var x := a / q;
    var y := a % q;
    assert a == x * q + y;
    assert a * p == (x * q) * p + y * p;
    assert (x * q) * p == x * (p * q);
    assert (y + 1) * p == y * p + p;
    assert q * p == w;
    MulMonotone(y + 1, q, p);
    DivModUnique(a * p, w, x, y * p);
    if x >= p {
      MulMonotone(p, x, q);
    }
  }

  /** Dividing a two-digit number in base p * q by p. */
  lemma {:induction false} ShiftDown(hi: nat, lo: nat, p: nat, q: nat, w: nat)
    requires p > 0 && q > 0 && p * q == w && lo < w
    ensures (hi * w + lo) / p == (hi / p) * w + (hi % p) * q + lo / p
    ensures lo / p < q
  {
    var (x, y) := (hi / p, hi % p);
    var (s, t) := (lo / p, lo % p);
    assert hi == x * p + y && lo == s * p + t;
    assert hi * w == (x * p) * w + y * w;
    assert (x * p) * w == (x * w) * p;
    assert y * w == (y * q) * p;
    var v := x * w + y * q + s;
    assert v * p == (x * w) * p + (y * q) * p + s * p;
    DivModUnique(hi * w + lo, p, v, t);
    if s >= q {
      MulMonotone(q, s, p);
    }
  }

  /** Reducing modulo a multiple of d first does not change the remainder modulo d. */
  lemma {:induction false} ModOfMod(x: int, d: int, k: int)
    requires d > 0 && k > 0
    ensures d * k > 0
    ensures (x % (d * k)) % d == x % d
  {
    MulMonotone(1, k, d);
    var m := d * k;
    var q := x / m;
    var y := x % m;
    var q2 := y / d;
    var r2 := y % d;
    assert x == q * m + q2 * d + r2;
    calc {
      q * m + q2 * d;
      q * (d * k) + q2 * d;
      (q * k) * d + q2 * d;
      (q * k + q2) * d;
    }
    DivModUnique(x, d, q * k + q2, r2);
  }

  /** A shift of the dividend by a multiple of the divisor. */
  lemma {:induction false} ModShift(x: int, k: int, d: int)
    requires d > 0
    ensures (x + k * d) % d == x % d
  {
    var q := x / d;
    assert (q + k) * d == q * d + k * d;
    DivModUnique(x + k * d, d, q + k, x % d);
  }

  lemma {:induction false} Pow2ModMod(x: int, a: nat, b: nat)
    requires a <= b
    ensures (x % Pow2(b)) % Pow2(a) == x % Pow2(a)
  {
    Pow2Add(a, b - a);
    ModOfMod(x, Pow2(a), Pow2(b - a));
  }

  // ---------------------------------------------------------------------------
  // Bits

  /** Bitwise operations on natural numbers, bit by bit. */
  function BitAnd(a: nat, b: nat): nat {
    if a == 0 || b == 0 then 0
    else (if a % 2 == 1 && b % 2 == 1 then 1 else 0) + 2 * BitAnd(a / 2, b / 2)
  }

  function BitOr(a: nat, b: nat): nat {
    if a == 0 then b else if b == 0 then a
    else (if a % 2 == 1 || b % 2 == 1 then 1 else 0) + 2 * BitOr(a / 2, b / 2)
  }

  function BitXor(a: nat, b: nat): nat {
    if a == 0 then b else if b == 0 then a
    else (if a % 2 != b % 2 then 1 else 0) + 2 * BitXor(a / 2, b / 2)
  }

  lemma {:induction false} BitAndAllOnes(x: nat, bits: nat)
    requires x < Pow2(bits)
    ensures BitAnd(x, Pow2(bits) - 1) == x && BitAnd(Pow2(bits) - 1, x) == x
  {
    if x == 0 {
    } else {
      var ones := Pow2(bits) - 1;
      assert ones % 2 == 1 && ones / 2 == Pow2(bits - 1) - 1;
      BitAndAllOnes(x / 2, bits - 1);
    }
  }

  lemma {:induction false} HalfMod(x: nat, h: nat)
    requires h > 0
    ensures x % (2 * h) == 2 * ((x / 2) % h) + x % 2
  {
    var q := x / 2 / h;
    var r := (x / 2) % h;
    assert x / 2 == q * h + r;
    assert x == 2 * (q * h + r) + x % 2;
    assert 2 * (q * h) == q * (2 * h);
    DivModUnique(x, 2 * h, q, 2 * r + x % 2);
  }

  /** Keeping the low bits is taking a remainder. */
  lemma {:induction false} BitAndMask(x: nat, bits: nat)
    ensures BitAnd(x, Pow2(bits) - 1) == x % Pow2(bits)
    decreases bits
  {
    if bits == 0 {
      assert x % 1 == 0;
    } else if x == 0 {
      SmallMod(0, Pow2(bits));
    } else {
      HalfMod(x, Pow2(bits - 1));
      BitAndMask(x / 2, bits - 1);
      assert (Pow2(bits) - 1) / 2 == Pow2(bits - 1) - 1;
    }
  }

  /** Or-ing a number into the zero bits below another adds it. */
  lemma {:induction false} BitOrDisjoint(x: nat, y: nat, bits: nat)
    requires y < Pow2(bits)
    ensures BitOr(x * Pow2(bits), y) == x * Pow2(bits) + y
    ensures BitOr(y, x * Pow2(bits)) == x * Pow2(bits) + y
    decreases bits
  {
    if bits == 0 || x == 0 || y == 0 {
    } else {
      var half := Pow2(bits - 1);
      var z := x * Pow2(bits);
      assert z == 2 * (x * half);
      BitOrDisjoint(x, y / 2, bits - 1);
      MulMonotone(1, x, Pow2(bits));
      assert z % 2 == 0 && z / 2 == x * half;
    }
  }
}
