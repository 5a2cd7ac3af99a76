/** Unsigned machine words as natural numbers: powers of two, bitwise AND and right shift, and the
    ceiling that the hash table computes with a shift and a mask. */
module Bits {
  function Pow2(k: nat): (r: nat)
    ensures r >= 1
  {
    if k == 0 then 1 else 2 * Pow2(k - 1)
  }

  /** The C operator `a & b`, bit by bit. */
  function BitAnd(a: nat, b: nat): nat {
    if a == 0 || b == 0 then 0
    else (if a % 2 == 1 && b % 2 == 1 then 1 else 0) + 2 * BitAnd(a / 2, b / 2)
  }

  /** The C operator `a >> k`: k halvings. */
  function Shr(a: nat, k: nat): nat {
    if k == 0 then a else Shr(a / 2, k - 1)
  }

  /** The ceiling of n / b: how many blocks of size b cover n. */
  function CeilDiv(n: nat, b: nat): nat
    requires b > 0
  {
    if n == 0 then 0 else if n <= b then 1 else 1 + CeilDiv(n - b, b)
  }

  lemma HalfOfMask(k: nat)
    requires k > 0
    ensures (Pow2(k) - 1) / 2 == Pow2(k - 1) - 1
    ensures Pow2(k) - 1 > 0 && (Pow2(k) - 1) % 2 == 1
  {
  }

  lemma SplitMod(x: nat, m: nat)
    requires m > 0
    ensures x % (2 * m) == x % 2 + 2 * ((x / 2) % m)
    ensures x / (2 * m) == (x / 2) / m
  {
    var q, r := (x / 2) / m, (x / 2) % m;
    assert x == 2 * (q * m + r) + x % 2;
    DivModUnique(x, 2 * m, q, 2 * r + x % 2);
  }

  lemma MulMono(a: nat, b: nat, m: nat)
    requires a <= b
    ensures a * m <= b * m
  {
  }

  lemma MulCancel(a: nat, b: nat, m: nat)
    requires m > 0 && m * a <= m * b
    ensures a <= b
  {
    if a > b {
      MulMono(b + 1, a, m);
    }
  }

  lemma DivModUnique(x: nat, m: nat, q: nat, r: nat)
    requires m > 0 && r < m && x == q * m + r
    ensures x / m == q && x % m == r
  {
    var q', r' := x / m, x % m;
    assert x == q' * m + r';
    if q' < q {
      MulMono(q' + 1, q, m);
    } else if q < q' {
      MulMono(q + 1, q', m);
    }
  }

  /** Masking with 2^k - 1 is reduction modulo 2^k. */
  lemma {:induction false} MaskIsMod(x: nat, k: nat)
    ensures BitAnd(x, Pow2(k) - 1) == x % Pow2(k)
    decreases k
  {
    if k > 0 {
      HalfOfMask(k);
      MaskIsMod(x / 2, k - 1);
      SplitMod(x, Pow2(k - 1));
    }
  }

  lemma {:induction false} ShrIsDiv(x: nat, k: nat)
    ensures Shr(x, k) == x / Pow2(k)
    decreases k
  {
    if k > 0 {
      ShrIsDiv(x / 2, k - 1);
      SplitMod(x, Pow2(k - 1));
    }
  }

  /** A mask never exceeds its operand, so a masked index stays below the mask's range. */
  lemma {:induction false} MaskBound(x: nat, m: nat)
    ensures BitAnd(x, m) <= m
    decreases x
  {
    if x != 0 && m != 0 {
      MaskBound(x / 2, m / 2);
    }
  }

  lemma {:induction false} CeilDivIsQuotient(n: nat, b: nat)
    requires b > 0
    ensures CeilDiv(n, b) == n / b + if n % b == 0 then 0 else 1
  {
    if n < b {
      DivModUnique(n, b, 0, n);
    } else if n == b {
      DivModUnique(n, b, 1, 0);
    } else {
      CeilDivIsQuotient(n - b, b);
      DivStep(n, b);
    }
  }

  lemma DivStep(n: nat, b: nat)
    requires 0 < b <= n
    ensures n / b == (n - b) / b + 1 && n % b == (n - b) % b
  {
    var q: nat, r: nat := (n - b) / b, (n - b) % b;
    Distribute(b, q, 1);
    DivModUnique(n, b, q + 1, r);
  }

  /** The shift-and-mask expression is the ceiling of n / 2^k. */
  lemma CeilByShiftAndMask(n: nat, k: nat)
    ensures Shr(n, k) + (if BitAnd(n, Pow2(k) - 1) != 0 then 1 else 0) == CeilDiv(n, Pow2(k))
  {
    MaskIsMod(n, k);
    ShrIsDiv(n, k);
    CeilDivIsQuotient(n, Pow2(k));
  }

  lemma Distribute(m: nat, x: nat, y: nat)
    ensures m * (x + y) == m * x + m * y
  {
  }

  /** CeilDiv is the least multiplier that covers n. */
  lemma {:induction false} CeilDivLeast(n: nat, b: nat, c: nat)
    requires b > 0
    ensures CeilDiv(n, b) * b >= n
    ensures c * b >= n ==> c >= CeilDiv(n, b)
    decreases n
  {
    if n > b {
      CeilDivLeast(n - b, b, if c > 0 then c - 1 else 0);
      Distribute(b, CeilDiv(n - b, b), 1);
      if c > 0 {
        Distribute(b, c - 1, 1);
      }
    }
  }
}
