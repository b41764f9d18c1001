/** Division facts on unbounded integers that the encoder's size computations rely on. */
module Arith {

  /** Ceiling division: the number of `b`-sized pieces needed to cover `a`. */
  function CeilDiv(a: nat, b: nat): nat
    requires b >= 1
  {
    (a + b - 1) / b
  }

  /** Multiples of `p` that differ at all differ by at least `p`. */
  lemma MultiplesApart(p: int, q: int, q': int)
    requires p > 0 && q > q'
    ensures p * q - p * q' >= p
  {
    var d := q - q';
    assert p * q == p * q' + p * d;
    assert p * d >= p by {
      assert p * d == p * (d - 1) + p;
    }
  }

  /** Quotient and remainder are determined by `a == p * q + r`, `0 <= r < p`. */
  lemma DivModUnique(a: int, p: int, q: int, r: int)
    requires p > 0 && 0 <= r < p && a == p * q + r
    ensures a / p == q && a % p == r
  {
    var q', r' := a / p, a % p;
    if q > q' {
      MultiplesApart(p, q, q');
    } else if q < q' {
      MultiplesApart(p, q', q);
    }
  }

  lemma MultipleMod(p: int, k: int)
    requires p > 0
    ensures (p * k) % p == 0
  {
    DivModUnique(p * k, p, k, 0);
  }

  lemma SubMultiple(a: int, b: int, p: int)
    requires p > 0 && a % p == 0 && b % p == 0
    ensures (a - b) % p == 0
  {
    assert a - b == p * (a / p - b / p);
    MultipleMod(p, a / p - b / p);
  }

  /** One more whole piece: `CeilDiv(a + p, p) == CeilDiv(a, p) + 1`. */
  lemma CeilDivStep(a: nat, p: nat)
    requires p >= 1
    ensures CeilDiv(a + p, p) == CeilDiv(a, p) + 1
  {
    var s := a + p - 1;
    DivModUnique(s + p, p, s / p + 1, s % p);
  }

  /** Anything from 1 to `p` is covered by a single piece. */
  lemma CeilDivOne(a: nat, p: nat)
    requires 1 <= a <= p
    ensures CeilDiv(a, p) == 1
  {
    DivModUnique(a + p - 1, p, 1, a - 1);
  }

  /** Covering `a > 0` takes one piece plus what covers the rest. */
  lemma CeilDivPeel(a: nat, p: nat)
    requires 1 <= a && 1 <= p
    ensures a <= p ==> CeilDiv(a, p) == 1
    ensures a > p ==> CeilDiv(a, p) == CeilDiv(a - p, p) + 1
  {
    if a <= p {
      CeilDivOne(a, p);
    } else {
      CeilDivStep(a - p, p);
    }
  }

  /** Dividing the successor: the quotient steps up exactly when the
      remainder was one short of the divisor. */
  lemma DivSucc(a: nat, p: nat)
    requires p >= 1
    ensures (a + 1) / p == a / p + (if a % p == p - 1 then 1 else 0)
  {
    var q, r := a / p, a % p;
    DivModUnique(a, p, q, r);
    if r == p - 1 {
      DivModUnique(a + 1, p, q + 1, 0);
    } else {
      DivModUnique(a + 1, p, q, r + 1);
    }
  }

  /** Rounding up adds one to the floor exactly when there is a remainder. */
  lemma CeilDivFloor(a: nat, p: nat)
    requires p >= 1
    ensures CeilDiv(a, p) == a / p + (if a % p == 0 then 0 else 1)
  {
    var q, r := a / p, a % p;
    DivModUnique(a, p, q, r);
    if r == 0 {
      DivModUnique(a + p - 1, p, q, p - 1);
    } else {
      DivModUnique(a + p - 1, p, q + 1, r - 1);
    }
  }
}
