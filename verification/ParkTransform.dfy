/** arm_park_q31 and arm_inv_park_q31: rotation into the rotor frame and back. */
module ParkTransform {
  import opened Basics
  import opened FixedPoint

  const TWO62 := TWO31 * TWO31
  /** The input range in which nothing saturates, whatever the angle. */
  const LIMIT := TWO30 - 4

  /** A product of two q31 values, truncated to q31. */
  function MulQ31(a: int, b: int): int {
    ToInt32(Shr(a * b, TWO31))
  }

  /** (Id, Iq) */
  function Park(alpha: int, beta: int, sin: int, cos: int): (int, int) {
    (QAdd(MulQ31(alpha, cos), MulQ31(beta, sin)), QSub(MulQ31(beta, cos), MulQ31(alpha, sin)))
  }

  /** (Ialpha, Ibeta) */
  function InversePark(d: int, q: int, sin: int, cos: int): (int, int) {
    (QSub(MulQ31(d, cos), MulQ31(q, sin)), QAdd(MulQ31(q, cos), MulQ31(d, sin)))
  }

  /** The truncated product, exactly, in a range where it fits: a b = 2^31 (a b >> 31) + remainder. */
  lemma {:induction false} MulExact(a: int, b: int, m: int) returns (r: int)
    requires 0 <= m < TWO31 && -m <= a <= m && IsQ31(b)
    ensures 0 <= r < TWO31 && a * b == TWO31 * MulQ31(a, b) + r
    ensures -m <= MulQ31(a, b) <= m
  {
    var t := a * b / TWO31;
    r := a * b % TWO31;
    assert a * b == TWO31 * t + r;
    ProductWithin(a, b, m, TWO31);
    assert -m <= t <= m;
    assert ToInt32(t) == t;
  }

  lemma {:induction false} SumExact(x: int, y: int)
    requires IsQ31(x + y)
    ensures QAdd(x, y) == x + y
  {
    ClipSaturates(x + y);
  }

  lemma {:induction false} DifferenceExact(x: int, y: int)
    requires IsQ31(x - y)
    ensures QSub(x, y) == x - y
  {
    ClipSaturates(x - y);
  }

  /** The forward transform, with the four remainders of its products. */
  lemma {:induction false} ParkExact(alpha: int, beta: int, sin: int, cos: int) returns (r1: int, r2: int, r3: int,
                                     r4: int)
    requires -LIMIT <= alpha <= LIMIT && -LIMIT <= beta <= LIMIT && IsQ31(sin) && IsQ31(cos)
    ensures 0 <= r1 < TWO31 && 0 <= r2 < TWO31 && 0 <= r3 < TWO31 && 0 <= r4 < TWO31
    ensures var (d, q) := Park(alpha, beta, sin, cos);
            && -2 * LIMIT <= d <= 2 * LIMIT && -2 * LIMIT <= q <= 2 * LIMIT
            && TWO31 * d == alpha * cos + beta * sin - r1 - r2
            && TWO31 * q == beta * cos - alpha * sin - r4 + r3
    ensures IsQ31(MulQ31(alpha, cos) + MulQ31(beta, sin)) && IsQ31(MulQ31(beta, cos) - MulQ31(alpha, sin))
  {
    hide MulQ31, ToInt32, ClipQ63ToQ31, QAdd, QSub;
    r1 := MulExact(alpha, cos, LIMIT);
    r2 := MulExact(beta, sin, LIMIT);
    r3 := MulExact(alpha, sin, LIMIT);
    r4 := MulExact(beta, cos, LIMIT);
    SumExact(MulQ31(alpha, cos), MulQ31(beta, sin));
    DifferenceExact(MulQ31(beta, cos), MulQ31(alpha, sin));
  }

  /** The error of a rotation and its inverse in one coordinate, at the scale 2^62. */
  lemma {:induction false} AlphaIdentity(alpha: int, beta: int, sin: int, cos: int, d: int, q: int,
                                         r1: int, r2: int, r3: int, r4: int, p5: int, r5: int, p6: int, r6: int)
    requires TWO31 * d == alpha * cos + beta * sin - r1 - r2 && TWO31 * q == beta * cos - alpha * sin - r4 + r3
    requires d * cos == TWO31 * p5 + r5 && q * sin == TWO31 * p6 + r6
    ensures TWO62 * (p5 - p6)
            == alpha * (sin * sin + cos * cos) - (r1 + r2) * cos + (r4 - r3) * sin - TWO31 * (r5 - r6)
  {
    assert TWO31 * (d * cos) == (alpha * cos + beta * sin - r1 - r2) * cos by {
      assert (TWO31 * d) * cos == TWO31 * (d * cos);
    }
    assert TWO31 * (q * sin) == (beta * cos - alpha * sin - r4 + r3) * sin by {
      assert (TWO31 * q) * sin == TWO31 * (q * sin);
    }
    assert (alpha * cos + beta * sin - r1 - r2) * cos == alpha * (cos * cos) + beta * (sin * cos) - (r1 + r2) * cos;
    assert (beta * cos - alpha * sin - r4 + r3) * sin == beta * (sin * cos) - alpha * (sin * sin) - (r4 - r3) * sin;
    assert alpha * (sin * sin + cos * cos) == alpha * (sin * sin) + alpha * (cos * cos);
  }

  lemma {:induction false} BetaIdentity(alpha: int, beta: int, sin: int, cos: int, d: int, q: int,
                                        r1: int, r2: int, r3: int, r4: int, p7: int, r7: int, p8: int, r8: int)
    requires TWO31 * d == alpha * cos + beta * sin - r1 - r2 && TWO31 * q == beta * cos - alpha * sin - r4 + r3
    requires q * cos == TWO31 * p7 + r7 && d * sin == TWO31 * p8 + r8
    ensures TWO62 * (p7 + p8)
            == beta * (sin * sin + cos * cos) - (r1 + r2) * sin - (r4 - r3) * cos - TWO31 * (r7 + r8)
  {
    assert TWO31 * (d * sin) == (alpha * cos + beta * sin - r1 - r2) * sin by {
      assert (TWO31 * d) * sin == TWO31 * (d * sin);
    }
    assert TWO31 * (q * cos) == (beta * cos - alpha * sin - r4 + r3) * cos by {
      assert (TWO31 * q) * cos == TWO31 * (q * cos);
    }
    assert (alpha * cos + beta * sin - r1 - r2) * sin == alpha * (sin * cos) + beta * (sin * sin) - (r1 + r2) * sin;
    assert (beta * cos - alpha * sin - r4 + r3) * cos == beta * (cos * cos) - alpha * (sin * cos) - (r4 - r3) * cos;
    assert beta * (sin * sin + cos * cos) == beta * (sin * sin) + beta * (cos * cos);
  }

  lemma {:induction false} SquaresWithin(sin: int, cos: int)
    requires IsQ31(sin) && IsQ31(cos)
    ensures 0 <= sin * sin + cos * cos <= 2 * TWO62
  {
    ProductWithin(sin, sin, TWO31, TWO31);
    ProductWithin(cos, cos, TWO31, TWO31);
    assert sin * sin >= 0 && cos * cos >= 0;
  }

  /** Park and back.  For every angle pair and all inputs in range, nothing saturates, and each
      coordinate comes back multiplied by (sin^2 + cos^2) / 2^62, less than 4 and 5 LSB away. */
  lemma {:induction false} RoundTrip(alpha: int, beta: int, sin: int, cos: int)
    requires -LIMIT <= alpha <= LIMIT && -LIMIT <= beta <= LIMIT && IsQ31(sin) && IsQ31(cos)
    ensures var (d, q) := Park(alpha, beta, sin, cos);
            var (a, b) := InversePark(d, q, sin, cos);
            var norm := sin * sin + cos * cos;
            && IsQ31(MulQ31(alpha, cos) + MulQ31(beta, sin)) && IsQ31(MulQ31(beta, cos) - MulQ31(alpha, sin))
            && IsQ31(MulQ31(d, cos) - MulQ31(q, sin)) && IsQ31(MulQ31(q, cos) + MulQ31(d, sin))
            && -4 * TWO62 < TWO62 * a - alpha * norm < 4 * TWO62
            && -5 * TWO62 < TWO62 * b - beta * norm < 5 * TWO62
  {
    hide MulQ31, ToInt32, ClipQ63ToQ31, QAdd, QSub, Park;
    var r1, r2, r3, r4 := ParkExact(alpha, beta, sin, cos);
    var (d, q) := Park(alpha, beta, sin, cos);
    var r5 := MulExact(d, cos, 2 * LIMIT);
    var r6 := MulExact(q, sin, 2 * LIMIT);
    var r7 := MulExact(q, cos, 2 * LIMIT);
    var r8 := MulExact(d, sin, 2 * LIMIT);
    var a, b := MulQ31(d, cos) - MulQ31(q, sin), MulQ31(q, cos) + MulQ31(d, sin);
    AlphaIdentity(alpha, beta, sin, cos, d, q, r1, r2, r3, r4, MulQ31(d, cos), r5, MulQ31(q, sin), r6);
    BetaIdentity(alpha, beta, sin, cos, d, q, r1, r2, r3, r4, MulQ31(q, cos), r7, MulQ31(d, sin), r8);
    var norm := sin * sin + cos * cos;
    ErrorsWithin(r1, r2, r3, r4, sin, cos);
    SquaresWithin(sin, cos);
    ProductWithin(alpha, norm, LIMIT, 2 * TWO62);
    ProductWithin(beta, norm, LIMIT, 2 * TWO62);
    DifferenceExact(MulQ31(d, cos), MulQ31(q, sin));
    SumExact(MulQ31(q, cos), MulQ31(d, sin));
  }

  lemma {:induction false} ErrorsWithin(r1: int, r2: int, r3: int, r4: int, sin: int, cos: int)
    requires 0 <= r1 < TWO31 && 0 <= r2 < TWO31 && 0 <= r3 < TWO31 && 0 <= r4 < TWO31 && IsQ31(sin) && IsQ31(cos)
    ensures -2 * TWO62 <= (r1 + r2) * cos <= 2 * TWO62 && -2 * TWO62 <= (r1 + r2) * sin <= 2 * TWO62
    ensures -TWO62 <= (r4 - r3) * sin <= TWO62 && -TWO62 <= (r4 - r3) * cos <= TWO62
  {
    ProductWithin(r1 + r2, cos, 2 * TWO31, TWO31);
    ProductWithin(r1 + r2, sin, 2 * TWO31, TWO31);
    ProductWithin(r4 - r3, sin, TWO31, TWO31);
    ProductWithin(r4 - r3, cos, TWO31, TWO31);
  }

  function Abs(x: int): int {
    if x < 0 then -x else x
  }

  /** In terms of the inputs themselves: within 4 and 5 LSB, plus what the angle's norm is off. */
  lemma {:induction false} RoundTripError(alpha: int, beta: int, sin: int, cos: int)
    requires -LIMIT <= alpha <= LIMIT && -LIMIT <= beta <= LIMIT && IsQ31(sin) && IsQ31(cos)
    ensures var (d, q) := Park(alpha, beta, sin, cos);
            var (a, b) := InversePark(d, q, sin, cos);
            var off := Abs(sin * sin + cos * cos - TWO62);
            && TWO62 * Abs(a - alpha) < 4 * TWO62 + Abs(alpha) * off
            && TWO62 * Abs(b - beta) < 5 * TWO62 + Abs(beta) * off
  {
    hide Park, InversePark;
    RoundTrip(alpha, beta, sin, cos);
    var norm := sin * sin + cos * cos;
    assert alpha * norm == alpha * (norm - TWO62) + alpha * TWO62;
    assert beta * norm == beta * (norm - TWO62) + beta * TWO62;
    ProductWithin(alpha, norm - TWO62, Abs(alpha), Abs(norm - TWO62));
    ProductWithin(beta, norm - TWO62, Abs(beta), Abs(norm - TWO62));
  }
}
