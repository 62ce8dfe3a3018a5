/** The two flash pages behind the EEPROM emulation, as values, and the two flash primitives.

    A page is a sequence of half-words.  Programming a half-word can only clear bits: the cell
    becomes the bitwise "and" of its old content and the programmed value.  Erasing a page sets
    every half-word to 0xFFFF.  Each primitive either happens completely or not at all. */
module FlashMemory {
  import opened Basics

  newtype HalfWord = x: int | 0 <= x < 0x1_0000

  /** The bitwise "and" of the low `n` bits of two numbers. */
  function BitAnd(a: nat, b: nat, n: nat): (r: nat)
    ensures r <= a
  {
    if n == 0 then 0 else 2 * BitAnd(a / 2, b / 2, n - 1) + (if a % 2 == 1 && b % 2 == 1 then 1 else 0)
  }

  function BitAt(x: nat, k: nat): bool {
    if k == 0 then x % 2 == 1 else BitAt(x / 2, k - 1)
  }

  /** A bit of the "and" is set exactly if it is set in both. */
  lemma {:induction false} BitAndBits(a: nat, b: nat, n: nat, k: nat)
    requires k < n
    ensures BitAt(BitAnd(a, b, n), k) <==> BitAt(a, k) && BitAt(b, k)
  {
    if k > 0 {
      BitAndBits(a / 2, b / 2, n - 1, k - 1);
    }
  }

  /** What programming a flash cell that holds `cell` with the value `v` leaves in it. */
  function Burn(cell: HalfWord, v: HalfWord): HalfWord {
    BitAnd(cell as int, v as int, 16) as HalfWord
  }

  /** Programming clears bits and sets none: a bit stays set exactly if the value has it too. */
  lemma {:induction false} BurnBits(cell: HalfWord, v: HalfWord, k: nat)
    requires k < 16
    ensures BitAt(Burn(cell, v) as int, k) <==> BitAt(cell as int, k) && BitAt(v as int, k)
  {
    BitAndBits(cell as int, v as int, 16, k);
  }

  const ERASED: HalfWord := 0xFFFF
  const RECEIVE_DATA: HalfWord := 0xEEEE
  const VALID_PAGE: HalfWord := 0x0000

  type Page = seq<HalfWord>

  function ErasedPage(n: nat): Page {
    seq(n, _ => ERASED)
  }

  datatype PageId = Page0 | Page1 {
    function Other(): PageId {
      if Page0? then Page1 else Page0
    }
  }

  datatype Flash = Flash(page0: Page, page1: Page) {
    function At(p: PageId): Page {
      if p.Page0? then page0 else page1
    }

    function With(p: PageId, content: Page): Flash {
      if p.Page0? then this.(page0 := content) else this.(page1 := content)
    }

    /** Both pages hold the same number of words of two half-words: a header and at least one
        record. */
    predicate Shaped() {
      |page0| == |page1| && |page0| % 2 == 0 && |page0| >= 4
    }

    function Header(p: PageId): HalfWord
      requires |page0| > 0 && |page1| > 0
    {
      At(p)[0]
    }
  }

  datatype Primitive =
    | Program(page: PageId, offset: nat, value: HalfWord)
    | Erase(page: PageId)

  function Do(f: Flash, op: Primitive): (g: Flash)
    ensures |g.page0| == |f.page0| && |g.page1| == |f.page1|
  {
    match op
    case Program(p, i, v) =>
      if i < |f.At(p)| then f.With(p, f.At(p)[i := Burn(f.At(p)[i], v)]) else f
    case Erase(p) =>
      f.With(p, ErasedPage(|f.At(p)|))
  }

  function Exec(f: Flash, ops: seq<Primitive>): (g: Flash)
    ensures |g.page0| == |f.page0| && |g.page1| == |f.page1|
    decreases |ops|
  {
    if ops == [] then f else Exec(Do(f, ops[0]), ops[1..])
  }

  lemma {:induction false} ExecConcat(f: Flash, a: seq<Primitive>, b: seq<Primitive>)
    ensures Exec(f, a + b) == Exec(Exec(f, a), b)
    decreases |a|
  {
    if a == [] {
      assert a + b == b;
    } else {
      assert (a + b)[0] == a[0] && (a + b)[1..] == a[1..] + b;
      ExecConcat(Do(f, a[0]), a[1..], b);
    }
  }

  lemma {:induction false} ExecNothing(f: Flash)
    ensures Exec(f, []) == f
  {
  }

  lemma {:induction false} ExecOne(f: Flash, a: Primitive)
    ensures Exec(f, [a]) == Do(f, a)
  {
    assert [a][1..] == [];
    assert Exec(f, [a]) == Exec(Do(f, a), []);
  }

  lemma {:induction false} ExecTwo(f: Flash, a: Primitive, b: Primitive)
    ensures Exec(f, [a, b]) == Do(Do(f, a), b)
  {
    assert [a, b][1..] == [b] && [b][1..] == [];
    assert Exec(f, [a, b]) == Exec(Do(f, a), [b]) == Exec(Do(Do(f, a), b), []);
  }

  /** A primitive the hardware accepts without losing information: record half-words are
      programmed only while they are erased, and a header only moves along
      ERASED -> RECEIVE_DATA -> VALID_PAGE (possibly skipping the middle). */
  predicate Legal(f: Flash, op: Primitive) {
    match op
    case Erase(_) => true
    case Program(p, i, v) =>
      && i < |f.At(p)|
      && (i > 0 ==> i != 1 && f.At(p)[i] == ERASED)
      && (i == 0 ==>
            || (f.At(p)[0] == ERASED && v in {RECEIVE_DATA, VALID_PAGE})
            || (f.At(p)[0] == RECEIVE_DATA && v == VALID_PAGE))
  }

  predicate LegalRun(f: Flash, ops: seq<Primitive>)
    decreases |ops|
  {
    ops == [] || (Legal(f, ops[0]) && LegalRun(Do(f, ops[0]), ops[1..]))
  }

  lemma {:induction false} BitAndOnes(v: nat, n: nat)
    requires v < Pow2(n)
    ensures BitAnd(Pow2(n) - 1, v, n) == v
  {
    if n > 0 {
      BitAndOnes(v / 2, n - 1);
      assert (Pow2(n) - 1) / 2 == Pow2(n - 1) - 1;
    }
  }

  lemma {:induction false} BitAndZero(a: nat, n: nat)
    ensures BitAnd(a, 0, n) == 0
  {
    if n > 0 {
      BitAndZero(a / 2, n - 1);
    }
  }

  lemma {:induction false} BitAndSelf(a: nat, n: nat)
    requires a < Pow2(n)
    ensures BitAnd(a, a, n) == a
  {
    if n > 0 {
      BitAndSelf(a / 2, n - 1);
    }
  }

  /** An erased cell takes any value; any cell can be cleared. */
  lemma {:induction false} BurnFacts(v: HalfWord)
    ensures Burn(ERASED, v) == v
    ensures Burn(v, VALID_PAGE) == VALID_PAGE
    ensures Burn(RECEIVE_DATA, RECEIVE_DATA) == RECEIVE_DATA
  {
    PowerValues();
    BitAndOnes(v as int, 16);
    BitAndZero(v as int, 16);
    BitAndSelf(RECEIVE_DATA as int, 16);
  }

  /** A legal program operation stores exactly the value it was given. */
  lemma {:induction false} LegalProgramStores(f: Flash, op: Primitive)
    requires op.Program? && Legal(f, op)
    ensures Do(f, op).At(op.page) == f.At(op.page)[op.offset := op.value]
    ensures Do(f, op).At(op.page.Other()) == f.At(op.page.Other())
  {
    BurnFacts(op.value);
    BurnFacts(RECEIVE_DATA);
  }

  lemma {:induction false} LegalRunConcat(f: Flash, a: seq<Primitive>, b: seq<Primitive>)
    requires LegalRun(f, a) && LegalRun(Exec(f, a), b)
    ensures LegalRun(f, a + b)
    decreases |a|
  {
    hide Legal, Do;
    if a == [] {
      assert a + b == b;
    } else {
      assert (a + b)[0] == a[0] && (a + b)[1..] == a[1..] + b;
      LegalRunConcat(Do(f, a[0]), a[1..], b);
    }
  }
}
