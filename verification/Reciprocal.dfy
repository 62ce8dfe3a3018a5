/** arm_recip_q31: a reciprocal by table lookup and two Newton iterations. */
module Reciprocal {
  import opened Basics
  import opened FixedPoint

  const TWO24 := 0x100_0000
  const TWO38 := 0x40_0000_0000
  const TWO49 := 0x2_0000_0000_0000
  const TWO55 := 0x80_0000_0000_0000
  const TWO92 := TWO61 * TWO31

  /** One iteration, with the C conversions. */
  function Iterate(x: int, out: int): int {
    var product := ToUint32(ToInt32(Shr(x * out, TWO31)));
    var tempVal := ToUint32(0x7FFF_FFFF - product);
    ToUint32(ClipQ63ToQ31(Shr(out * tempVal, TWO30)))
  }

  /** What the kernel does with the table's entry: two iterations. */
  function Refined(x: int, entry: int): int {
    Iterate(x, Iterate(x, entry))
  }

  /** How far `out` is from the reciprocal of `x`, at the scale where that is 2^61. */
  function Defect(x: int, out: int): int {
    TWO61 - x * out
  }

  predicate Normalised(x: int) {
    TWO30 <= x < TWO31
  }

  /** A table entry within one part in 64. */
  predicate Close(x: int, entry: int) {
    0 < entry < TWO31 && -TWO55 <= Defect(x, entry) <= TWO55
  }

  function Entry(table: seq<int>, x: int): int
    requires |table| == 64
  {
    table[Shr(x, TWO24) % 64]
  }

  ghost predicate GoodTable(table: seq<int>) {
    |table| == 64 && forall x :: Normalised(x) ==> Close(x, Entry(table, x))
  }

  /** The iteration in exact arithmetic: with p = x out, t = p / 2^31 and the two remainders r, q of
      the truncations, 2^61 times the new defect is d^2 + p (2^31 - r) + 2^31 x q. */
  lemma {:induction false} DefectIdentity(x: int, out: int, next: int, r: int, q: int)
    requires var t := x * out / TWO31;
             && r == x * out % TWO31
             && next == out * (TWO31 - 1 - t) / TWO30
             && q == out * (TWO31 - 1 - t) % TWO30
    ensures var d := Defect(x, out);
            TWO61 * Defect(x, next) == d * d + x * out * (TWO31 - r) + TWO31 * (x * q)
  {
    var p := x * out;
    var t := p / TWO31;
    var c := TWO31 - 1 - t;
    assert p == TWO31 * t + r;
    assert TWO31 * c == 2 * TWO61 - TWO31 - p + r by {
      assert TWO31 * TWO31 == 2 * TWO61;
    }
    assert out * c == TWO30 * next + q;
    assert x * (out * c) == p * c;
    assert TWO30 * (x * next) == p * c - x * q by {
      assert x * (TWO30 * next + q) == TWO30 * (x * next) + x * q;
    }
    assert TWO61 * (x * next) == p * (2 * TWO61 - TWO31 - p + r) - TWO31 * (x * q) by {
      assert TWO61 * (x * next) == TWO31 * (TWO30 * (x * next));
      assert TWO31 * (p * c) == p * (TWO31 * c);
    }
    var d := TWO61 - p;
    assert d * d == TWO61 * TWO61 - 2 * TWO61 * p + p * p;
    assert p * (2 * TWO61 - TWO31 - p + r) == 2 * TWO61 * p - p * p - p * (TWO31 - r);
  }

  lemma {:induction false} ProductBounds(a: int, b: int, u: int, w: int)
    requires 0 <= a <= u && 0 <= b <= w
    ensures 0 <= a * b <= u * w
  {
    assert a * b <= u * b <= u * w;
  }

  /** The truncation errors of one iteration cost less than three units of 2^31. */
  lemma {:induction false} ExactStep(x: int, out: int)
    requires Normalised(x) && 0 < out < TWO31 && -TWO55 <= Defect(x, out) <= TWO55
    ensures var t := x * out / TWO31;
            var next := out * (TWO31 - 1 - t) / TWO30;
            var d := Defect(x, out);
            && 0 <= t < TWO31 - 1 && 0 <= next < TWO31
            && 0 < Defect(x, next) && TWO61 * Defect(x, next) < d * d + 3 * TWO92
  {
    var p := x * out;
    var t, r := p / TWO31, p % TWO31;
    assert p == TWO61 - Defect(x, out);
    var c := TWO31 - 1 - t;
    var next, q := out * c / TWO30, out * c % TWO30;
    DefectIdentity(x, out, next, r, q);
    ProductBounds(p, TWO31 - r, TWO61 + TWO55, TWO31);
    ProductBounds(x, q, TWO31, TWO30);
    assert p * (TWO31 - r) >= p by {
      assert p * (TWO31 - r) == p * (TWO31 - r - 1) + p;
      ProductBounds(p, TWO31 - r - 1, p, TWO31);
    }
    var d := Defect(x, out);
    assert d * d >= 0;
    assert TWO61 * Defect(x, next) > 0;
    ProductBounds(out, c, TWO31, TWO31);
    TimesMonotone(x, TWO31, next);
  }

  lemma {:induction false} SmallConversions(t: int)
    requires 0 <= t < TWO31
    ensures ToUint32(ToInt32(t)) == t && ToUint32(t) == t && ToUint32(0x7FFF_FFFF - t) == TWO31 - 1 - t
    ensures ClipQ63ToQ31(t) == t
  {
    ClipSaturates(t);
  }

  /** In range, the C conversions and the clip of an iteration do nothing. */
  lemma {:induction false} IterateExact(x: int, out: int)
    requires Normalised(x) && 0 < out < TWO31 && -TWO55 <= Defect(x, out) <= TWO55
    ensures Iterate(x, out) == out * (TWO31 - 1 - x * out / TWO31) / TWO30
  {
    hide ToUint32, ToInt32, ClipQ63ToQ31;
    ExactStep(x, out);
    var t := x * out / TWO31;
    SmallConversions(t);
    SmallConversions(out * (TWO31 - 1 - t) / TWO30);
  }

  /** One iteration squares the relative error, up to the truncations; it stays below the reciprocal. */
  lemma {:induction false} NewtonStep(x: int, out: int)
    requires Normalised(x) && 0 < out < TWO31 && -TWO55 <= Defect(x, out) <= TWO55
    ensures var next, d := Iterate(x, out), Defect(x, out);
            && 0 <= next < TWO31
            && 0 < Defect(x, next) && TWO61 * Defect(x, next) < d * d + 3 * TWO92
  {
    ExactStep(x, out);
    IterateExact(x, out);
  }

  lemma {:induction false} SquareBound(d: int, b: int)
    requires -b <= d <= b
    ensures d * d <= b * b
  {
    if d >= 0 {
      ProductBounds(d, d, b, b);
    } else {
      ProductBounds(-d, -d, b, b);
    }
  }

  /** Two iterations from a table entry: relative error below 2^-23, from below. */
  lemma {:induction false} TwoSteps(x: int, out: int)
    requires Normalised(x) && Close(x, out)
    ensures var second := Refined(x, out); 0 <= second < TWO31 && 0 < Defect(x, second) < TWO38
  {
    var first := Iterate(x, out);
    NewtonStep(x, out);
    SquareBound(Defect(x, out), TWO55);
    assert TWO55 * TWO55 == TWO61 * TWO49;
    assert Defect(x, first) < TWO49 + 3 * TWO31;
    TimesMonotone(x, first, 0);
    NewtonStep(x, first);
    SquareBound(Defect(x, first), TWO49 + 3 * TWO31);
    assert (TWO49 + 3 * TWO31) * (TWO49 + 3 * TWO31) + 3 * TWO92 < TWO61 * TWO38;
  }

  /** The conversions of an iteration whose product is negative. */
  lemma {:induction false} NegativeComplement(p: int)
    requires TWO30 * (TWO30 - TWO24) <= p <= TWO31 * TWO31
    ensures var c := ToUint32(0x7FFF_FFFF - ToUint32(ToInt32(Shr(-p, TWO31))));
            TWO31 + 0x1F80_0000 - 1 <= c < TWO32
  {
    var t := (-p) / TWO31;
    assert -TWO31 <= t <= -0x1F80_0000;
    assert ToInt32(t) == t && ToUint32(t) == t + TWO32;
  }

  lemma {:induction false} OvershootClips(out: int, c: int)
    requires TWO30 - TWO24 <= out < TWO31 && TWO31 + 0x1F80_0000 - 1 <= c < TWO32
    ensures ToUint32(ClipQ63ToQ31(Shr(out * c, TWO30))) == 0x7FFF_FFFF
  {
    TimesMonotone(c, TWO30 - TWO24, out);
    ProductBounds(out, c, TWO31, TWO32);
    assert c * (TWO30 - TWO24) >= TWO30 * TWO31;
    ClipSaturates(out * c / TWO30);
  }

  /** A negative argument: the complement of a negative product overshoots, and every iteration clips. */
  lemma {:induction false} NegativeClips(y: int, out: int)
    requires Normalised(y) && TWO30 - TWO24 <= out < TWO31
    ensures Iterate(-y, out) == 0x7FFF_FFFF
  {
    hide Shr, ToUint32, ToInt32, ClipQ63ToQ31;
    ProductBounds(y, out, TWO31, TWO31);
    TimesMonotone(out, TWO30, y);
    assert (-y) * out == -(y * out);
    NegativeComplement(y * out);
    OvershootClips(out, ToUint32(0x7FFF_FFFF - ToUint32(ToInt32(Shr(-(y * out), TWO31)))));
  }

  /** arm_recip_q31.  For a positive argument, normalised by the returned exponent less one, the result
      is its reciprocal to one part in 2^23; for any negative argument it is the largest q31 value. */
  method Reciprocal(input: int, table: seq<int>) returns (dst: int, exponent: nat, ghost normalised: int)
    requires IsQ31(input) && input != 0 && input != -TWO31 && GoodTable(table)
    ensures 1 <= exponent <= 31 && normalised == (if input > 0 then input else -input) * Pow2(exponent - 1)
    ensures Normalised(normalised) && 0 <= dst < TWO31
    ensures input > 0 ==> 0 < TWO61 - normalised * dst < TWO38 && dst == Refined(normalised, Entry(table, normalised))
    ensures input < 0 ==> dst == 0x7FFF_FFFF
  {
    hide ToUint32, ToInt32, ClipQ63ToQ31, Pow2, Shr;
    var zeros := CountLeadingZeros(if input > 0 then input else -input);
    var signBits := zeros - 1;
    normalised := (if input > 0 then input else -input) * Pow2(signBits);
    Normalises(if input > 0 then input else -input, zeros);
    var x := input * Pow2(signBits);
    var index := ToUint32(Shr(x, TWO24)) % 64;
    var out := table[index];
    IndexRange(x);
    EntryRange(table, index);
    assert input > 0 ==> out == Entry(table, x) && Close(x, out);
    ghost var start := out;
    for i := 0 to 2
      invariant out == if i == 0 then start else if i == 1 then Iterate(x, start) else Iterate(x, Iterate(x, start))
    {
      var tempVal := ToUint32(ToInt32(Shr(x * out, TWO31)));
      tempVal := ToUint32(0x7FFF_FFFF - tempVal);
      out := ToUint32(ClipQ63ToQ31(Shr(out * tempVal, TWO30)));
    }
    dst, exponent := out, signBits + 1;
    if input > 0 {
      TwoSteps(x, start);
    } else {
      NegateProduct(input, Pow2(signBits));
      NegativeClips(normalised, start);
      NegativeClips(normalised, Iterate(x, start));
    }
  }

  lemma {:induction false} IndexRange(x: int)
    ensures ToUint32(Shr(x, TWO24)) % 64 == Shr(x, TWO24) % 64
  {
  }

  lemma {:induction false} NegateProduct(a: int, b: int)
    ensures (-a) * b == -(a * b)
  {
  }

  lemma {:induction false} Normalises(data: int, zeros: nat)
    requires 1 <= zeros <= 31 && Pow2(31 - zeros) <= data < 2 * Pow2(31 - zeros)
    ensures Normalised(data * Pow2(zeros - 1))
  {
    hide Pow2;
    PowerSum(31 - zeros, zeros - 1);
    PowerValues();
    var a, b := Pow2(31 - zeros), Pow2(zeros - 1);
    assert a * b == TWO30;
    Doubles(a, b, data);
  }

  lemma {:induction false} Doubles(a: int, b: int, data: int)
    requires 0 < b && a <= data < 2 * a
    ensures a * b <= data * b < 2 * (a * b)
  {
  }

  /** Every entry of a good table is at least nearly 2^30. */
  lemma {:induction false} EntryRange(table: seq<int>, index: nat)
    requires GoodTable(table) && index < 64
    ensures TWO30 - TWO24 <= table[index] < TWO31
  {
    var x := (64 + index) * TWO24;
    assert Shr(x, TWO24) == 64 + index;
    assert Entry(table, x) == table[index];
    assert Close(x, table[index]);
    TimesMonotone(x, table[index], TWO30 - TWO24 - 1);
    TimesMonotone(TWO30 - TWO24 - 1, x, TWO31);
  }

  /** Such tables exist: the reciprocal of the middle of each cell. */
  function MidpointTable(): seq<int> {
    seq(64, j requires 0 <= j < 64 => TWO38 / (129 + 2 * j))
  }

  /** With that table, the kernel's reciprocal of 1 (normalised: 2^30) is 2147483639. */
  lemma {:induction false} ReciprocalOfOne()
    ensures Refined(0x4000_0000, Entry(MidpointTable(), 0x4000_0000)) == 2147483639
  {
    hide Iterate;
    var x := 0x4000_0000;
    assert Entry(MidpointTable(), x) == 2130836487;
    IterateExact(x, 2130836487);
    assert Iterate(x, 2130836487) == 2147354599;
    IterateExact(x, 2147354599);
  }

  lemma {:induction false} MidpointTableIsGood()
    ensures GoodTable(MidpointTable())
  {
    forall x | Normalised(x)
      ensures Close(x, Entry(MidpointTable(), x))
    {
      var j := Shr(x, TWO24) - 64;
      assert 0 <= j < 64 && Shr(x, TWO24) % 64 == j;
      MidpointClose(x, 129 + 2 * j);
    }
  }

  lemma {:induction false} MidpointClose(x: int, m: int)
    requires 129 <= m <= 255 && (m - 1) * 0x80_0000 <= x < (m + 1) * 0x80_0000
    ensures Close(x, TWO38 / m)
  {
    var e, r, delta := TWO38 / m, TWO38 % m, x - m * 0x80_0000;
    assert TWO38 == m * e + r;
    TimesMonotone(e, 129, m);
    assert 0 < e < TWO31;
    assert x * e == 0x80_0000 * (m * e) + delta * e;
    TimesMonotone(e, delta, 0x80_0000);
    TimesMonotone(e, -0x80_0000, delta);
  }
}
