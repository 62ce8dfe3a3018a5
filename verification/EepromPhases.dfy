/** The states the emulation's flash can be in, and the store each of them stands for.

    Outside the two formatting states the flash is in one of three phases.  `Mounted`: one page is
    valid and the other is blank.  `Receiving`: a transfer out of the valid page has begun and the
    other page is marked RECEIVE_DATA.  `Switched`: the transfer is complete and its source erased, but
    the new page is not yet marked valid. */
module EepromPhases {
  import opened FlashMemory
  import opened PageLog
  import opened EepromPlan

  function Used(p: Page): nat {
    FirstBlank(p, 0)
  }

  /** A page in use: its header is `header`, its words form a log and its records are the table's. */
  ghost predicate Holds(p: Page, header: HalfWord, table: seq<HalfWord>) {
    && |p| >= 4 && p[0] == header && IsLog(p, Used(p))
    && (forall a :: a in StoreOf(p) ==> a in table)
  }

  predicate IsBlank(p: Page) {
    p == ErasedPage(|p|)
  }

  ghost predicate Virgin(f: Flash) {
    f.Shaped() && IsBlank(f.page0) && IsBlank(f.page1)
  }

  ghost predicate Mounted(f: Flash, table: seq<HalfWord>, v: PageId) {
    f.Shaped() && Holds(f.At(v), VALID_PAGE, table) && IsBlank(f.At(v.Other()))
  }

  ghost predicate Switched(f: Flash, table: seq<HalfWord>, w: PageId) {
    f.Shaped() && Holds(f.At(w), RECEIVE_DATA, table) && IsBlank(f.At(w.Other()))
  }

  ghost predicate Doubled(f: Flash, table: seq<HalfWord>) {
    f.Shaped() && Holds(f.page0, VALID_PAGE, table) && Holds(f.page1, VALID_PAGE, table)
  }

  /** Record 1 of a receiving page may be a variable being written; every later record repeats the
      value the source page has for its variable, which is never record 1's. */
  ghost predicate Faithful(p: Page, m: Store)
    requires Slots(p) >= 2
  {
    forall k: nat :: 2 <= k < Slots(p) && TagAt(p, k) != ERASED ==>
      TagAt(p, k) in m && DataAt(p, k) == m[TagAt(p, k)] && TagAt(p, k) != TagAt(p, 1)
  }

  /** A transfer out of page `v` is under way. */
  ghost predicate Receiving(f: Flash, table: seq<HalfWord>, v: PageId) {
    && f.Shaped()
    && Holds(f.At(v), VALID_PAGE, table)
    && Holds(f.At(v.Other()), RECEIVE_DATA, table)
  }

  /** A transfer that no other write has intruded on. */
  ghost predicate Interrupted(f: Flash, table: seq<HalfWord>, v: PageId) {
    Receiving(f, table, v) && Faithful(f.At(v.Other()), StoreOf(f.At(v)))
  }

  ghost predicate Recoverable(f: Flash, table: seq<HalfWord>) {
    || Virgin(f)
    || IsMounted(f, table)
    || Switched(f, table, Page0) || Switched(f, table, Page1)
    || Receiving(f, table, Page0) || Receiving(f, table, Page1)
  }

  ghost predicate IsMounted(f: Flash, table: seq<HalfWord>) {
    Mounted(f, table, Page0) || Mounted(f, table, Page1)
  }

  /** Record 1 of a page, as a store of its own. */
  function FirstRecord(p: Page): Store
    requires Slots(p) >= 2
  {
    if TagAt(p, 1) == ERASED then map[] else map[TagAt(p, 1) := DataAt(p, 1)]
  }

  /** What EE_Init makes of the receiving page `p` beside a page that stands for `m`: it copies all of
      `m` over what `p` says, except for the variable of record 1. */
  function Merged(p: Page, m: Store): Store
    requires Slots(p) >= 2
  {
    StoreOf(p) + (m - {TagAt(p, 1)})
  }

  /** The store an uninterrupted EE_Init is going to leave. */
  function Committed(f: Flash): Store
    requires f.Shaped()
  {
    var h0, h1 := f.Header(Page0), f.Header(Page1);
    if h0 == VALID_PAGE && h1 == VALID_PAGE then map[]
    else if h0 == VALID_PAGE then
      if h1 == RECEIVE_DATA then Merged(f.page1, StoreOf(f.page0)) else StoreOf(f.page0)
    else if h1 == VALID_PAGE then
      if h0 == RECEIVE_DATA then Merged(f.page0, StoreOf(f.page1)) else StoreOf(f.page1)
    else if h0 == RECEIVE_DATA && h1 == ERASED then StoreOf(f.page0)
    else if h1 == RECEIVE_DATA && h0 == ERASED then StoreOf(f.page1)
    else map[]
  }

  lemma {:induction false} BlankIsEmpty(p: Page)
    requires IsBlank(p) && |p| % 2 == 0 && |p| >= 4
    ensures StoreOf(p) == map[] && p[0] == ERASED && p[1] == ERASED
    ensures forall k: nat :: k < Slots(p) ==> BlankSlot(p, k)
  {
    assert forall k: nat :: k < Slots(p) ==> BlankSlot(p, k) && TagAt(p, k) == ERASED;
    UntaggedSuffix(p, 1, Slots(p));
  }

  /** Changing the header, between values that are not blank, changes nothing else. */
  lemma {:induction false} HeaderOnly(p: Page, header: HalfWord, table: seq<HalfWord>, h: HalfWord)
    requires Holds(p, header, table) && h != ERASED
    ensures |p| >= 4 && p[0] == header
    ensures var q := p[0 := h];
            && Holds(q, h, table) && StoreOf(q) == StoreOf(p) && Used(q) == Used(p)
            && (forall k: nat :: 1 <= k < Slots(p) ==> TagAt(q, k) == TagAt(p, k) && DataAt(q, k) == DataAt(p, k))
  {
    var q := p[0 := h];
    assert forall k: nat :: 1 <= k < Slots(p) ==> TagAt(q, k) == TagAt(p, k) && DataAt(q, k) == DataAt(p, k);
    assert forall k: nat :: 1 <= k < Slots(p) ==> BlankSlot(q, k) == BlankSlot(p, k);
    assert DataAt(q, 0) == h;
    assert IsLog(q, Used(p)) by {
      assert forall k: nat :: k < Used(p) ==> !BlankSlot(p, k);
      assert forall k: nat :: k < Used(p) ==> !BlankSlot(q, k);
      assert forall k: nat :: Used(p) <= k < Slots(p) ==> BlankSlot(p, k);
      assert forall k: nat :: Used(p) <= k < Slots(q) ==> BlankSlot(q, k);
    }
    LogUsed(q, Used(p));
    StoreFrame(p, q, Slots(p));
  }

  /** Marking a blank page puts an empty log on it. */
  lemma {:induction false} MarkBlank(p: Page, table: seq<HalfWord>, h: HalfWord)
    requires IsBlank(p) && |p| % 2 == 0 && |p| >= 4 && h != ERASED
    ensures var q := p[0 := h];
            Holds(q, h, table) && StoreOf(q) == map[] && Used(q) == 1 && TagAt(q, 1) == ERASED
            && (forall m :: Faithful(q, m))
  {
    BlankIsEmpty(p);
    var q := p[0 := h];
    assert forall k: nat :: 1 <= k < Slots(p) ==> TagAt(q, k) == TagAt(p, k) && DataAt(q, k) == DataAt(p, k);
    assert DataAt(q, 0) == h;
    assert IsLog(q, 1) by {
      assert forall k: nat :: 1 <= k < Slots(p) ==> BlankSlot(p, k);
      assert forall k: nat :: 1 <= k < Slots(q) ==> BlankSlot(q, k);
    }
    LogUsed(q, 1);
    assert forall k: nat :: 1 <= k < Slots(q) && BlankSlot(p, k) ==> TagAt(q, k) == ERASED;
    UntaggedSuffix(q, 1, Slots(q));
  }

  /** What the headers of a transfer under way say. */
  lemma {:induction false} ReceivingFacts(f: Flash, table: seq<HalfWord>, v: PageId)
    requires Receiving(f, table, v)
    ensures TransferSides(f, v)
    ensures Committed(f) == Merged(f.At(v.Other()), StoreOf(f.At(v)))
  {
  }
}
