/** Bit fields inside machine words, written with and, or and shifts as in C. */
module BitFields {
  import opened Numbers

  /** C's v << b, without losing bits at the top. */
  function Up(v: nat, b: nat): nat {
    if b == 0 then v else 2 * Up(v, b - 1)
  }

  lemma {:induction false} UpIsProduct(v: nat, b: nat)
    ensures Up(v, b) == v * Pow2(b)
  {
    if b > 0 {
      UpIsProduct(v, b - 1);
      assert v * (2 * Pow2(b - 1)) == 2 * (v * Pow2(b - 1));
    }
  }

  lemma {:induction false} AndStep(x: nat, m: nat)
    ensures BitAnd(x, m) == 2 * BitAnd(x / 2, m / 2) + if x % 2 == 1 && m % 2 == 1 then 1 else 0
  {
    if x == 0 {
    } else if m == 0 {
      assert BitAnd(x / 2, 0) == 0;
    }
  }

  lemma {:induction false} OrStep(x: nat, y: nat)
    ensures BitOr(x, y) == 2 * BitOr(x / 2, y / 2) + if x % 2 == 1 || y % 2 == 1 then 1 else 0
  {
  }

  /** A mask with two parts acts on the two parts of the word. */
  lemma {:induction false} AndSplit(q: nat, r: nat, hi: nat, lo: nat, b: nat)
    requires r < Pow2(b) && lo < Pow2(b)
    ensures BitAnd(Up(q, b) + r, Up(hi, b) + lo) == Up(BitAnd(q, hi), b) + BitAnd(r, lo)
    decreases b
  {
    hide BitAnd;
    if b == 0 {
      AndStep(0, 0);
    } else {
      AndSplit(q, r / 2, hi, lo / 2, b - 1);
      AndStep(Up(q, b) + r, Up(hi, b) + lo);
      AndStep(r, lo);
    }
  }

  /** Or-ing two words part by part. */
  lemma {:induction false} OrSplit(q: nat, r: nat, hi: nat, lo: nat, b: nat)
    requires r < Pow2(b) && lo < Pow2(b)
    ensures BitOr(Up(q, b) + r, Up(hi, b) + lo) == Up(BitOr(q, hi), b) + BitOr(r, lo)
    decreases b
  {
    hide BitOr;
    if b == 0 {
      OrStep(0, 0);
    } else {
      OrSplit(q, r / 2, hi, lo / 2, b - 1);
      OrStep(Up(q, b) + r, Up(hi, b) + lo);
      OrStep(r, lo);
    }
  }
}
