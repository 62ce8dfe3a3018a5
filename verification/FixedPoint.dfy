/** C integer arithmetic of the fixed-point kernels: narrowing, shifting, saturating. */
module FixedPoint {
  import opened Basics

  const TWO15 := 0x8000
  const TWO30 := 0x4000_0000
  const TWO31 := 0x8000_0000
  const TWO61 := 0x2000_0000_0000_0000
  const TWO63 := 0x8000_0000_0000_0000

  predicate IsQ15(x: int) {
    -TWO15 <= x < TWO15
  }

  predicate IsQ31(x: int) {
    -TWO31 <= x < TWO31
  }

  predicate IsQ63(x: int) {
    -TWO63 <= x < TWO63
  }

  /** Conversion to a signed 32-bit integer keeps the low 32 bits. */
  function ToInt32(x: int): int {
    (x + TWO31) % TWO32 - TWO31
  }

  function ToUint32(x: int): int {
    x % TWO32
  }

  /** An arithmetic right shift by `k` bits, `unit` being 2 to the k, rounds down. */
  function Shr(x: int, unit: int): (r: int)
    requires unit > 0
    ensures unit * r <= x < unit * r + unit
  {
    x / unit
  }

  /** clip_q63_to_q31: compares the high word with the sign of the low word. */
  function ClipQ63ToQ31(x: int): int {
    if ToInt32(Shr(x, TWO32)) != Shr(ToInt32(x), TWO31) then
      (if Shr(x, TWO63) == 0 then 0x7FFF_FFFF else -1 - 0x7FFF_FFFF)
    else ToInt32(x)
  }

  function Clamp(x: int, lo: int, hi: int): (r: int)
    requires lo <= hi
  {
    if x < lo then lo else if x > hi then hi else x
  }

  /** The bit test saturates exactly. */
  lemma {:induction false} ClipSaturates(x: int)
    requires IsQ63(x)
    ensures ClipQ63ToQ31(x) == Clamp(x, -TWO31, TWO31 - 1)
    ensures ClipQ63ToQ31(x) == if x > 0x7FFF_FFFF then 0x7FFF_FFFF else if x < -0x8000_0000 then -0x8000_0000 else x
  {
    var hi := x / TWO32;
    assert ToInt32(hi) == hi;
    if IsQ31(x) {
      assert ToInt32(x) == x;
    } else if hi == 0 {
      assert ToInt32(x) == x - TWO32;
    } else if hi == -1 {
      assert ToInt32(x) == x + TWO32;
    }
  }

  /** __QADD and __QSUB */
  function QAdd(x: int, y: int): int {
    ClipQ63ToQ31(x + y)
  }

  function QSub(x: int, y: int): int {
    ClipQ63ToQ31(x - y)
  }

  lemma {:induction false} BitBelow(n: nat)
    ensures Pow2(n) == if n == 0 then 1 else 2 * Pow2(n - 1)
  {
  }

  lemma {:induction false} WordOf(data: int)
    requires IsQ31(data)
    ensures ToUint32(data) == if data < 0 then data + TWO32 else data
  {
  }

  /** __CLZ: shifts a mask down from the top bit until it meets a set bit. */
  method CountLeadingZeros(data: int) returns (count: nat)
    requires IsQ31(data) && data != 0
    ensures count <= 31 && Pow2(31 - count) <= ToUint32(data) < 2 * Pow2(31 - count)
    ensures if data < 0 then count == 0 else count >= 1 && Pow2(31 - count) <= data < 2 * Pow2(31 - count)
  {
    hide ToUint32, Pow2, IsClear;
    count := 0;
    var mask := 0x8000_0000;
    PowerValues();
    var word := ToUint32(data);
    WordOf(data);
    TopBit(word, mask);
    while IsClear(word, mask)
      invariant count <= 31 && mask == Pow2(31 - count) && word < 2 * mask
      invariant if count == 0 then mask == TWO31 else word < TWO31
      invariant IsClear(word, mask) <==> word < mask
      decreases 31 - count
    {
      BitBelow(31 - count);
      TopBit(word, mask / 2);
      count, mask := count + 1, mask / 2;
    }
  }

  /** They saturate, whatever two 32-bit values they are given. */
  lemma {:induction false} SumsSaturate(x: int, y: int)
    requires IsQ31(x) && IsQ31(y)
    ensures QAdd(x, y) ==
            if x + y > 0x7FFF_FFFF then 0x7FFF_FFFF else if x + y < -0x8000_0000 then -0x8000_0000 else x + y
    ensures QSub(x, y) ==
            if x - y > 0x7FFF_FFFF then 0x7FFF_FFFF else if x - y < -0x8000_0000 then -0x8000_0000 else x - y
  {
    ClipSaturates(x + y);
    ClipSaturates(x - y);
  }

  /** What the conversions keep: the value modulo 2^32. */
  lemma {:induction false} ConversionsKeepLowBits(x: int)
    ensures -0x8000_0000 <= ToInt32(x) < 0x8000_0000 && (x - ToInt32(x)) % 0x1_0000_0000 == 0
    ensures 0 <= ToUint32(x) < 0x1_0000_0000 && (x - ToUint32(x)) % 0x1_0000_0000 == 0
  {
    DivisionUnique(x - ToInt32(x), (x + TWO31) / TWO32, 0, TWO32);
    DivisionUnique(x - ToUint32(x), x / TWO32, 0, TWO32);
  }

  /** The bit that `mask`, a power of two, stands for. */
  predicate IsClear(word: int, mask: int)
    requires mask > 0
  {
    word / mask % 2 == 0
  }

  /** The mask meets the top bit of a number when the number reaches it. */
  lemma {:induction false} TopBit(data: int, mask: int)
    requires 0 < mask && 0 < data < 2 * mask
    ensures IsClear(data, mask) <==> data < mask
  {
    if data < mask {
      DivisionUnique(data, 0, data, mask);
    } else {
      DivisionUnique(data, 1, data - mask, mask);
    }
  }

  /** __SSAT: saturates `x` to `bits` bits. */
  method SignedSaturate(x: int, bits: nat) returns (r: int)
    requires IsQ31(x) && 1 <= bits <= 31
    ensures r == Clamp(x, -Pow2(bits - 1), Pow2(bits - 1) - 1)
    ensures var end := Pow2(bits - 1); r == if x >= end then end - 1 else if x < -end then -end else x
  {
    var posMax := 1;
    for i := 0 to bits - 1
      invariant posMax == Pow2(i)
    {
      posMax := posMax * 2;
    }
    r := x;
    if x > 0 {
      posMax := posMax - 1;
      if x > posMax {
        r := posMax;
      }
    } else {
      var negMin := -posMax;
      if x < negMin {
        r := negMin;
      }
    }
  }
}
