/**
  Integer arithmetic with the semantics of C, as the watchface uses it.

  Dafny's `/` on `int` is Euclidean; C's `/` truncates toward zero. The two
  agree when both operands are non-negative and differ otherwise, so every
  division in the model whose dividend can be negative goes through `CDiv`.
  The fixed-width predicates let lemmas state that the model's unbounded
  integers never leave the ranges of the C types they stand for.
 */
module CArith {

  function Abs(x: int): (r: nat)
    ensures r == x || r == -x
  {
    if x < 0 then -x else x
  }

  /** C's integer division by a positive divisor (every divisor in the
      watchface is a positive constant): the quotient is truncated toward
      zero, so a negative dividend divides as its magnitude and is negated. */
  function CDiv(a: int, b: int): (q: int)
    requires b > 0
    ensures IsTruncatedQuotient(a, b, q)
  {
    DivFloor(Abs(a), b);
    if a < 0 then -((-a) / b) else a / b
  }

  /** `q` is `a / b` rounded toward zero: it has the sign of `a`, and its
      magnitude is the largest `m` with `m * b <= |a|`. */
  predicate IsTruncatedQuotient(a: int, b: int, q: int) {
    && (a >= 0 ==> q >= 0 && q * b <= a < (q + 1) * b)
    && (a < 0 ==> q <= 0 && (-q) * b <= -a < (-q + 1) * b)
  }

  /** Euclidean division of a non-negative dividend rounds down. */
  lemma DivFloor(a: int, b: int)
    requires a >= 0 && b > 0
    ensures a / b >= 0 && (a / b) * b <= a < (a / b + 1) * b
  {
    var q := a / b;
    var r := a % b;
    assert a == q * b + r && 0 <= r < b;
    assert (q + 1) * b == q * b + b;
  }

  /** C's `%`, fixed by the identity (a/b)*b + a%b == a. */
  function CRem(a: int, b: int): int
    requires b > 0
  {
    a - CDiv(a, b) * b
  }

  /** The defining property of C division (section 6.5.5 of ISO/IEC 9899:1999):
      the remainder is smaller than the divisor in magnitude and never has the
      opposite sign of the dividend. */
  lemma CDivTruncates(a: int, b: int)
    requires b > 0
    ensures -b < CRem(a, b) < b
    ensures CRem(a, b) == 0 || (CRem(a, b) < 0 <==> a < 0)
  {
  }

  /** Truncation is symmetric about zero, unlike Euclidean division. */
  lemma CDivNegate(a: int, b: int)
    requires b > 0
    ensures CDiv(-a, b) == -CDiv(a, b)
  {
    if a < 0 {
      assert CDiv(-a, b) == (-a) / b;
    } else if a > 0 {
      assert CDiv(-a, b) == -(a / b);
    } else {
      DivBelow(0, b, 0);
      DivNonNegative(0, b);
    }
  }

  /** On a non-negative dividend C and Dafny agree. */
  lemma CDivNonNegative(a: int, b: int)
    requires a >= 0 && b > 0
    ensures CDiv(a, b) == a / b
    ensures CDiv(a, b) >= 0
  {
    DivNonNegative(a, b);
  }

  lemma DivNonNegative(a: int, b: int)
    requires a >= 0 && b > 0
    ensures a / b >= 0
  {
  }

  lemma MulAtLeast(x: int, b: int)
    requires x >= 1 && b > 0
    ensures x * b >= b
  {
  }

  lemma DivExact(k: int, b: int)
    requires b > 0
    ensures (k * b) / b == k
  {
    var q := (k * b) / b;
    var r := (k * b) % b;
    assert k * b == q * b + r && 0 <= r < b;
    assert (k - q) * b == r;
    if k > q {
      MulAtLeast(k - q, b);
    } else if k < q {
      MulAtLeast(q - k, b);
    }
  }

  /** Dividing an exact multiple gives back the factor, whatever its sign. */
  lemma CDivExact(k: int, b: int)
    requires b > 0
    ensures CDiv(k * b, b) == k
  {
    if k < 0 {
      assert -(k * b) == (-k) * b;
      MulAtLeast(-k, b);
      DivExact(-k, b);
    } else {
      DivExact(k, b);
    }
  }

  lemma DivBelow(x: nat, d: int, n: nat)
    requires d > 0 && x <= d * n
    ensures x / d <= n
  {
  }

  /** Scaling a length by a fixed-point ratio of magnitude at most one does not
      lengthen it. */
  lemma CDivScaleBound(s: int, len: nat, ratio: int)
    requires ratio > 0 && -ratio <= s <= ratio
    ensures -(len as int) <= CDiv(s * len, ratio) <= len
  {
    if s < 0 {
      MulLe(-s, ratio, len);
      assert -(s * len) == (-s) * len;
      DivBelow((-s) * len, ratio, len);
      assert CDiv(s * len, ratio) == -(((-s) * len) / ratio);
    } else {
      MulLe(s, ratio, len);
      DivBelow(s * len, ratio, len);
      DivNonNegative(s * len, ratio);
    }
  }

  lemma MulLe(x: nat, y: nat, k: nat)
    requires x <= y
    ensures x * k <= y * k
  {
  }

  lemma MulBound(x: nat, y: nat, xb: nat, yb: nat)
    requires x <= xb && y <= yb
    ensures x * y <= xb * yb
  {
  }

  /** A 16-bit signed value times a value within the 16-bit unsigned range
      fits a 32-bit signed integer. */
  lemma ProductBound(s: int, r: int)
    requires -0xffff <= s <= 0xffff && IsInt16(r)
    ensures IsInt32(s * r)
  {
    MulBound(Abs(s), Abs(r), 0xffff, 0x8000);
    if s < 0 && r < 0 {
      assert s * r == Abs(s) * Abs(r);
    } else if s < 0 || r < 0 {
      assert s * r == -(Abs(s) * Abs(r));
    } else {
      assert s * r == Abs(s) * Abs(r);
    }
  }

  /** Bounds and sign of a length scaled by a fixed-point ratio, under the
      conditions that guarantee them. */
  lemma CDivScaleFacts(s: int, len: int, ratio: int)
    requires ratio > 0
    ensures len >= 0 && -ratio <= s <= ratio ==> -len <= CDiv(s * len, ratio) <= len
    ensures len >= 0 && s >= 0 ==> CDiv(s * len, ratio) >= 0
  {
    if len >= 0 {
      if -ratio <= s <= ratio {
        CDivScaleBound(s, len, ratio);
      }
      if s >= 0 {
        assert s * len >= 0;
      }
    }
  }

  predicate IsInt16(x: int) {
    -0x8000 <= x < 0x8000
  }

  predicate IsInt32(x: int) {
    -0x8000_0000 <= x < 0x8000_0000
  }
}
