/** Small facts of non-linear integer arithmetic used by the other modules. */
module Arith {

  lemma {:induction false} MulStrict(a: nat, b: nat, c: nat)
    requires a < b && c > 0
    ensures a * c < c * b
  {
    if c > 1 {
      MulStrict(a, b, c - 1);
      assert a * c == a * (c - 1) + a;
      assert c * b == (c - 1) * b + b;
    }
  }

  lemma {:induction false} MulMono(a: nat, b: nat, c: nat)
    requires a <= b
    ensures a * c <= b * c
  {
    if c > 0 {
      MulMono(a, b, c - 1);
      assert a * c == a * (c - 1) + a;
      assert b * c == b * (c - 1) + b;
    }
  }

  /** Scaling a fraction below 1 and flooring stays below the scale. */
  lemma FloorScaledBelow(num: nat, den: nat, len: nat)
    requires num < den
    ensures len > 0 ==> num * len / den < len
  {
    if len > 0 {
      var q := num * len / den;
      assert q * den <= num * len;
      MulStrict(num, den, len);
      if q >= len {
        MulMono(len, q, den);
        assert false;
      }
    }
  }

  /** Multiplication written out as repeated addition. Index arithmetic is
      stated with it so that the facts a proof needs (one more row adds one
      more stride, more rows reach further) are unfoldings and small lemmas
      rather than non-linear reasoning. */
  function Mul(a: nat, b: nat): nat
  {
    if a == 0 then 0 else Mul(a - 1, b) + b
  }

  lemma {:induction false} MulIsTimes(a: nat, b: nat)
    ensures Mul(a, b) == a * b
  {
    if a > 0 {
      MulIsTimes(a - 1, b);
      assert a * b == (a - 1) * b + b;
    }
  }

  lemma {:induction false} MulMonoLeft(a: nat, a': nat, b: nat)
    requires a <= a'
    ensures Mul(a, b) <= Mul(a', b)
  {
    if a < a' {
      MulMonoLeft(a, a' - 1, b);
    }
  }

  /** Whole multiples of `b` that fit in `a`: `floor(a / b) * b <= a`. */
  lemma FloorDivMul(a: nat, b: nat)
    requires b > 0
    ensures Mul(a / b, b) <= a
  {
    MulIsTimes(a / b, b);
  }

  /** Multiplication distributes over a sum on the left. */
  lemma {:induction false} MulAdd(a: nat, a': nat, b: nat)
    ensures Mul(a + a', b) == Mul(a, b) + Mul(a', b)
  {
    if a' > 0 {
      MulAdd(a, a' - 1, b);
      assert Mul(a + a', b) == Mul(a + a' - 1, b) + b;
    }
  }

  /** Four bytes per pixel: `a` strides of `4 * b` bytes are `4 * (a * b)` bytes. */
  lemma {:induction false} MulTimesFour(a: nat, b: nat)
    ensures Mul(a, b * 4) == Mul(a, b) * 4
  {
    if a > 0 {
      MulTimesFour(a - 1, b);
    }
  }

  lemma {:induction false} MulZero(a: nat)
    ensures Mul(a, 0) == 0
  {
    if a > 0 {
      MulZero(a - 1);
    }
  }
}
