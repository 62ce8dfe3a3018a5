/** Each EEPROM emulation call as a plan: the flash primitives it issues from a given flash
    content when none of them fails, and the status it then returns.  The driver class is proved to
    carry out these plans; a power cut or a flash error leaves a prefix of one. */
module EepromPlan {
  import opened Basics
  import opened FlashMemory
  import opened PageLog

  const FLASH_COMPLETE := 8
  const PAGE_FULL := 0x80
  const NO_VALID_PAGE := 0xAB

  datatype Plan = Plan(ops: seq<Primitive>, final: int) {
    /** This plan, and `more` after it if it succeeds. */
    function Then(more: Plan): Plan {
      if final == FLASH_COMPLETE then Plan(ops + more.ops, more.final) else this
    }

    lemma {:induction false} ThenAssociates(b: Plan, c: Plan)
      ensures Then(b).Then(c) == Then(b.Then(c))
    {
      assert (ops + b.ops) + c.ops == ops + (b.ops + c.ops);
    }
  }

  /** A plan of which every primitive must succeed. */
  function All(ops: seq<Primitive>): Plan {
    Plan(ops, FLASH_COMPLETE)
  }

  /** Cutting a plan that consists of two parts cuts one of them. */
  lemma {:induction false} ThenCut(f: Flash, one: Plan, more: Plan, k: nat)
    requires k <= |one.Then(more).ops|
    ensures Exec(f, one.Then(more).ops[..k]) ==
            if k <= |one.ops| then Exec(f, one.ops[..k])
            else Exec(Exec(f, one.ops), more.ops[..k - |one.ops|])
  {
    if k <= |one.ops| {
      assert one.Then(more).ops[..k] == one.ops[..k];
    } else {
      assert one.Then(more).ops[..k] == one.ops + more.ops[..k - |one.ops|];
      ExecConcat(f, one.ops, more.ops[..k - |one.ops|]);
    }
  }

  lemma {:induction false} ThenExec(f: Flash, one: Plan, more: Plan)
    ensures Exec(f, one.Then(more).ops) ==
            if one.final == FLASH_COMPLETE then Exec(Exec(f, one.ops), more.ops) else Exec(f, one.ops)
  {
    ExecConcat(f, one.ops, more.ops);
  }

  /** The user's table of virtual addresses: distinct, and never the erased value. */
  ghost predicate GoodTable(table: seq<HalfWord>) {
    && ERASED !in table
    && forall i, j :: 0 <= i < j < |table| ==> table[i] != table[j]
  }

  /** The page reads are served from: a page marked valid. */
  function ReadPage(f: Flash): Option<PageId>
    requires f.Shaped()
  {
    if f.Header(Page0) == VALID_PAGE then Some(Page0)
    else if f.Header(Page1) == VALID_PAGE then Some(Page1)
    else None
  }

  /** The page writes go to: the page receiving data beside a valid one, otherwise the valid one. */
  function WritePage(f: Flash): Option<PageId>
    requires f.Shaped()
  {
    if f.Header(Page1) == VALID_PAGE then Some(if f.Header(Page0) == RECEIVE_DATA then Page0 else Page1)
    else if f.Header(Page0) == VALID_PAGE then Some(if f.Header(Page1) == RECEIVE_DATA then Page1 else Page0)
    else None
  }

  /** Reads are served from `v`, writes go to the other page. */
  predicate TransferSides(f: Flash, v: PageId) {
    f.Shaped() && ReadPage(f) == Some(v) && WritePage(f) == Some(v.Other())
  }

  /** Reads are served from `v`, writes go to either page. */
  predicate CopySides(f: Flash, v: PageId) {
    f.Shaped() && ReadPage(f) == Some(v) && WritePage(f) in {Some(v), Some(v.Other())}
  }

  /** Writes one record into the first blank word of the page that takes writes. */
  function AppendPlan(f: Flash, r: Record): Plan
    requires f.Shaped()
  {
    match WritePage(f)
    case None => Plan([], NO_VALID_PAGE)
    case Some(w) =>
      var k := FirstBlank(f.At(w), 0);
      if k == Slots(f.At(w)) then Plan([], PAGE_FULL)
      else All([Program(w, 2 * k, r.data), Program(w, 2 * k + 1, r.tag)])
  }

  lemma {:induction false} NowhereToAppend(f: Flash, r: Record)
    requires f.Shaped() && WritePage(f) == None
    ensures AppendPlan(f, r) == Plan([], NO_VALID_PAGE)
  {
  }

  /** The scan for a blank word has found one at half-word address `address`, or come to the page's end. */
  lemma {:induction false} ScanEnds(f: Flash, w: PageId, r: Record, address: nat)
    requires f.Shaped() && WritePage(f) == Some(w) && address % 2 == 0 && address <= |f.At(w)|
    requires var p := f.At(w);
             && FirstBlank(p, 0) == FirstBlank(p, address / 2)
             && (address < |p| ==> p[address] == ERASED && p[address + 1] == ERASED)
    ensures AppendPlan(f, r) == if address == |f.At(w)| then Plan([], PAGE_FULL)
                                else All([Program(w, address, r.data), Program(w, address + 1, r.tag)])
  {
    hide FirstBlank;
    ScanStep(f.At(w), address);
    assert 2 * (address / 2) == address;
  }

  /** Writes several records, one after the other. */
  function CopyPlan(f: Flash, rs: seq<Record>): Plan
    requires f.Shaped()
    decreases |rs|
  {
    if rs == [] then All([])
    else
      var one := AppendPlan(f, rs[0]);
      one.Then(CopyPlan(Exec(f, one.ops), rs[1..]))
  }

  /** What an uncut append leaves: on a full page nothing, otherwise both half-words of the first blank
      word, which is never the header's. */
  lemma {:induction false} AppendStores(f: Flash, w: PageId, r: Record)
    requires f.Shaped() && WritePage(f) == Some(w)
    ensures var p, n := f.At(w), FirstBlank(f.At(w), 0);
            && 1 <= n
            && if n == Slots(p) then AppendPlan(f, r) == Plan([], PAGE_FULL)
               else
                 && BlankSlot(p, n)
                 && Exec(f, AppendPlan(f, r).ops) == f.With(w, p[2 * n := r.data][2 * n + 1 := r.tag])
  {
    hide FirstBlank, Exec, Burn;
    var p, n := f.At(w), FirstBlank(f.At(w), 0);
    assert !BlankSlot(p, 0) by {
      assert DataAt(p, 0) == f.Header(w);
    }
    if n < Slots(p) {
      ExecTwo(f, AppendPlan(f, r).ops[0], AppendPlan(f, r).ops[1]);
      BurnFacts(r.data);
      BurnFacts(r.tag);
    }
  }

  lemma {:induction false} SameHeaders(f: Flash, g: Flash)
    requires f.Shaped() && g.Shaped() && f.Header(Page0) == g.Header(Page0) && f.Header(Page1) == g.Header(Page1)
    ensures ReadPage(g) == ReadPage(f) && WritePage(g) == WritePage(f)
  {
  }

  /** Appending a record to the receiving page leaves the page that reads are served from as it is. */
  lemma {:induction false} AppendBesides(f: Flash, v: PageId, r: Record)
    requires TransferSides(f, v)
    ensures var g := Exec(f, AppendPlan(f, r).ops);
            && TransferSides(g, v) && g.At(v) == f.At(v)
            && var before, after := TagAt(f.At(v.Other()), 1), TagAt(g.At(v.Other()), 1);
               after == before || (before == ERASED && after == r.tag)
  {
    hide FirstBlank, Exec, AppendPlan, ReadPage, WritePage;
    AppendStores(f, v.Other(), r);
    ExecNothing(f);
    SameHeaders(f, Exec(f, AppendPlan(f, r).ops));
  }

  /** Appending a record that repeats the latest one of its tag leaves what is read as it is, even on the
      page that reads are served from. */
  lemma {:induction false} AppendCopy(f: Flash, v: PageId, r: Record)
    requires CopySides(f, v) && r.tag != ERASED && Get(StoreOf(f.At(v)), r.tag) == Some(r.data)
    ensures var g := Exec(f, AppendPlan(f, r).ops);
            && CopySides(g, v) && StoreOf(g.At(v)) == StoreOf(f.At(v))
            && var before, after := TagAt(f.At(v.Other()), 1), TagAt(g.At(v.Other()), 1);
               after == before || (before == ERASED && after == r.tag)
  {
    hide StoreOf, FirstBlank, Exec, AppendPlan, ReadPage, WritePage;
    if WritePage(f) == Some(v.Other()) {
      AppendBesides(f, v, r);
    } else {
      AppendStores(f, v, r);
      ExecNothing(f);
      SameHeaders(f, Exec(f, AppendPlan(f, r).ops));
      if FirstBlank(f.At(v), 0) < Slots(f.At(v)) {
        RepeatedRecord(f.At(v), FirstBlank(f.At(v), 0), r);
      }
    }
  }

  /** Marking a page that is already receiving or valid as receiving changes nothing. */
  lemma {:induction false} HeaderAgain(f: Flash, w: PageId)
    requires f.Shaped() && f.Header(w) in {RECEIVE_DATA, VALID_PAGE}
    ensures Do(f, Program(w, 0, RECEIVE_DATA)) == f
  {
    BurnFacts(RECEIVE_DATA);
    assert Burn(VALID_PAGE, RECEIVE_DATA) == VALID_PAGE;
    assert f.At(w)[0 := f.Header(w)] == f.At(w);
  }

  /** When the page that takes writes is full, marking the other page as receiving sends writes there and
      leaves reads alone, or it sends writes to a full page. */
  lemma {:induction false} MarkSides(f: Flash, v: PageId, r: Record)
    requires f.Shaped() && ReadPage(f) == Some(v) && AppendPlan(f, r).final == PAGE_FULL
    ensures var g := Do(f, Program(v.Other(), 0, RECEIVE_DATA));
            && g.At(v) == f.At(v) && g.Shaped()
            && (TransferSides(g, v) || AppendPlan(g, r) == Plan([], PAGE_FULL))
  {
    hide FirstBlank, Burn;
    if f.Header(v.Other()) in {RECEIVE_DATA, VALID_PAGE} {
      HeaderAgain(f, v.Other());
    }
  }

  /** The table's variables from index `i` on that have a value in `m`, except `skip`. */
  function Survivors(table: seq<HalfWord>, i: nat, m: Store, skip: HalfWord): seq<Record>
    requires i <= |table|
    decreases |table| - i
  {
    if i == |table| then []
    else
      var rest := Survivors(table, i + 1, m, skip);
      if table[i] != skip && table[i] in m then [Record(table[i], m[table[i]])] + rest else rest
  }

  /** Erases the page beside `w` and marks `w` valid. */
  function PromotePlan(w: PageId): Plan {
    All([Erase(w.Other()), Program(w, 0, VALID_PAGE)])
  }

  /** Fills the receiving page, the new record first, and then switches over to it. */
  function FillPlan(f: Flash, table: seq<HalfWord>, v: PageId, r: Record): Plan
    requires f.Shaped()
  {
    var first := AppendPlan(f, r);
    var copy := CopyPlan(Exec(f, first.ops), Survivors(table, 0, StoreOf(f.At(v)), r.tag));
    first.Then(copy.Then(PromotePlan(v.Other())))
  }

  /** Moves the live variables to the other page. */
  function TransferPlan(f: Flash, table: seq<HalfWord>, r: Record): Plan
    requires f.Shaped()
  {
    match ReadPage(f)
    case None => Plan([], NO_VALID_PAGE)
    case Some(v) =>
      var mark := [Program(v.Other(), 0, RECEIVE_DATA)];
      All(mark).Then(FillPlan(Exec(f, mark), table, v, r))
  }

  function WritePlan(f: Flash, table: seq<HalfWord>, r: Record): Plan
    requires f.Shaped()
  {
    var append := AppendPlan(f, r);
    if append.final == PAGE_FULL then TransferPlan(f, table, r) else append
  }

  const FORMAT_PLAN := All([Erase(Page0), Program(Page0, 0, VALID_PAGE), Erase(Page1)])

  /** Completes an interrupted transfer out of page `v`: the variable in record 1 of the receiving
      page was the one being written, so every other variable is copied (again). */
  function ResumePlan(f: Flash, table: seq<HalfWord>, v: PageId): Plan
    requires f.Shaped()
  {
    CopyPlan(f, Survivors(table, 0, StoreOf(f.At(v)), TagAt(f.At(v.Other()), 1)))
    .Then(All([Program(v.Other(), 0, VALID_PAGE), Erase(v)]))
  }

  function InitPlan(f: Flash, table: seq<HalfWord>): Plan
    requires f.Shaped()
  {
    var h0, h1 := f.Header(Page0), f.Header(Page1);
    if h0 == VALID_PAGE && h1 == ERASED then All([Erase(Page1)])
    else if h1 == VALID_PAGE && h0 == ERASED then All([Erase(Page0)])
    else if h0 == VALID_PAGE && h1 != VALID_PAGE then ResumePlan(f, table, Page0)
    else if h1 == VALID_PAGE && h0 == RECEIVE_DATA then ResumePlan(f, table, Page1)
    else if h0 == ERASED && h1 == RECEIVE_DATA then PromotePlan(Page1)
    else if h0 == RECEIVE_DATA && h1 == ERASED then PromotePlan(Page0)
    else FORMAT_PLAN
  }
}
