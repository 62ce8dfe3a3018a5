/** Crash safety of single calls: what a cut at any primitive of EE_WriteVariable or EE_Init leaves. */
module EepromCrash {
  import opened Basics
  import opened FlashMemory
  import opened PageLog
  import opened EepromPlan
  import opened EepromPhases
  import opened EepromRecovery

  /** EE_PageTransfer ends a transfer by erasing the source before it marks the new page valid. */
  lemma {:induction false} EraseThenMark(h: Flash, table: seq<HalfWord>, v: PageId)
    requires Receiving(h, table, v) && StoreOf(h.At(v.Other())) == Committed(h)
    ensures var w := v.Other();
            var erased := Do(h, Erase(v));
            var done := Do(erased, Program(w, 0, VALID_PAGE));
            && Switched(erased, table, w) && Committed(erased) == Committed(h)
            && Mounted(done, table, w) && Committed(done) == Committed(h) && Used(done.At(w)) == Used(h.At(w))
            && LegalRun(h, [Erase(v), Program(w, 0, VALID_PAGE)])
  {
    hide StoreOf, Used, Holds, Faithful, Exec, Merged, Burn, LegalRun;
    BurnFacts(RECEIVE_DATA);
    HeaderOnly(h.At(v), VALID_PAGE, table, VALID_PAGE);
    HeaderOnly(h.At(v.Other()), RECEIVE_DATA, table, VALID_PAGE);
    assert ErasedPage(|h.At(v)|)[0] == ERASED;
    LegalTwo(h, Erase(v), Program(v.Other(), 0, VALID_PAGE));
  }

  /** EE_Init ends a transfer by marking the new page valid before it erases the source: in between,
      both pages are valid. */
  lemma {:induction false} MarkThenErase(h: Flash, table: seq<HalfWord>, v: PageId)
    requires Receiving(h, table, v) && StoreOf(h.At(v.Other())) == Committed(h)
    ensures var w := v.Other();
            var marked := Do(h, Program(w, 0, VALID_PAGE));
            var done := Do(marked, Erase(v));
            && Doubled(marked, table) && StoreOf(marked.At(w)) == Committed(h)
            && Mounted(done, table, w) && Committed(done) == Committed(h) && Used(done.At(w)) == Used(h.At(w))
            && LegalRun(h, [Program(w, 0, VALID_PAGE), Erase(v)])
  {
    hide StoreOf, Used, Holds, Faithful, Exec, Merged, Burn, LegalRun;
    BurnFacts(RECEIVE_DATA);
    HeaderOnly(h.At(v), VALID_PAGE, table, VALID_PAGE);
    HeaderOnly(h.At(v.Other()), RECEIVE_DATA, table, VALID_PAGE);
    assert ErasedPage(|h.At(v)|)[0] == ERASED;
    LegalTwo(h, Program(v.Other(), 0, VALID_PAGE), Erase(v));
  }

  lemma {:induction false} LegalTwo(f: Flash, a: Primitive, b: Primitive)
    requires Legal(f, a) && Legal(Do(f, a), b)
    ensures LegalRun(f, [a, b])
  {
    assert [a, b][1..] == [b] && [b][1..] == [];
    assert LegalRun(Do(f, a), [b]);
  }

  /** How many records completing an interrupted transfer copies. */
  function Missing(f: Flash, table: seq<HalfWord>, v: PageId): nat
    requires f.Shaped()
  {
    |Survivors(table, 0, StoreOf(f.At(v)), TagAt(f.At(v.Other()), 1))|
  }

  /** The receiving page has a free word for each of them. */
  predicate HasRoom(f: Flash, table: seq<HalfWord>, v: PageId)
    requires f.Shaped()
  {
    Used(f.At(v.Other())) + Missing(f, table, v) <= Slots(f.At(v.Other()))
  }

  /** The copying part of a resumed transfer. */
  lemma {:induction false} ResumeCopies(f: Flash, table: seq<HalfWord>, v: PageId)
    requires Receiving(f, table, v) && GoodTable(table)
    ensures var copy := CopyPlan(f, Survivors(table, 0, StoreOf(f.At(v)), TagAt(f.At(v.Other()), 1)));
            var h := Exec(f, copy.ops);
            && (copy.final == FLASH_COMPLETE <==> HasRoom(f, table, v))
            && (forall k: nat :: k <= |copy.ops| ==>
                   Continues(f, Exec(f, copy.ops[..k]), table, v, Missing(f, table, v)))
            && Continues(f, h, table, v, Missing(f, table, v))
            && (HasRoom(f, table, v) ==> StoreOf(h.At(v.Other())) == Committed(h))
            && (!HasRoom(f, table, v) ==> copy.final == PAGE_FULL && Used(h.At(v.Other())) == Slots(h.At(v.Other())))
  {
    hide StoreUpTo, FirstBlank, IsLog, Holds, AppendPlan, Exec, Copies, Survivors, CopyPlan;
    var w := v.Other();
    var m, skip := StoreOf(f.At(v)), TagAt(f.At(w), 1);
    var rs := Survivors(table, 0, m, skip);
    var copy := CopyPlan(f, rs);
    var h := Exec(f, copy.ops);
    SurvivorsAre(table, 0, m, skip);
    CopyAll(f, table, v, rs);
    forall k: nat | k <= |copy.ops|
      ensures Continues(f, Exec(f, copy.ops[..k]), table, v, Missing(f, table, v))
    {
      CopyCut(f, table, v, rs, k);
    }
    CopyCut(f, table, v, rs, |copy.ops|);
    assert copy.ops[..|copy.ops|] == copy.ops;
    if HasRoom(f, table, v) {
      LiveIsAll(f, table, v, skip);
      ReceivingFacts(f, table, v);
    }
  }

  /** Apart from the skipped one, every variable of the source page is live. */
  lemma {:induction false} LiveIsAll(f: Flash, table: seq<HalfWord>, v: PageId, skip: HalfWord)
    requires Receiving(f, table, v)
    ensures var m := StoreOf(f.At(v)); Restricted(m, Live(table, 0, m, skip)) == m - {skip}
  {
    assert table[0..] == table;
  }

  lemma {:induction false} CutPair(f: Flash, a: Primitive, b: Primitive, j: nat)
    requires j <= 2
    ensures Exec(f, [a, b][..j]) == if j == 0 then f else if j == 1 then Do(f, a) else Do(Do(f, a), b)
  {
    if j == 1 {
      assert [a, b][..1] == [a] && [a][1..] == [];
    } else if j == 2 {
      assert [a, b][..2] == [a, b];
      ExecTwo(f, a, b);
    }
  }

  /** A resumed transfer, cut after `k` primitives: it is complete, or it is between the VALID mark and
      the erase, or it is still under way and stands for the same store.  Without room for all the
      missing records it returns PAGE_FULL and can only be in the last of these. */
  lemma {:induction false} ResumeCut(f: Flash, table: seq<HalfWord>, v: PageId, k: nat)
    requires Receiving(f, table, v) && GoodTable(table)
    requires k <= |ResumePlan(f, table, v).ops|
    ensures var plan := ResumePlan(f, table, v);
            var g := Exec(f, plan.ops[..k]);
            && plan.final == (if HasRoom(f, table, v) then FLASH_COMPLETE else PAGE_FULL)
            && (HasRoom(f, table, v) ==> |plan.ops| >= 2)
            && (if HasRoom(f, table, v) && k == |plan.ops| then
                  Mounted(g, table, v.Other()) && Committed(g) == Committed(f)
                else if HasRoom(f, table, v) && k == |plan.ops| - 1 then
                  Doubled(g, table) && StoreOf(g.At(v.Other())) == Committed(f)
                else Continues(f, g, table, v, Missing(f, table, v)))
  {
    hide Holds, Faithful, Committed, StoreOf, Exec, CopyPlan, Survivors, Missing, HasRoom, Used, Mounted, Doubled;
    var w := v.Other();
    var copy := CopyPlan(f, Survivors(table, 0, StoreOf(f.At(v)), TagAt(f.At(w), 1)));
    var tail := All([Program(w, 0, VALID_PAGE), Erase(v)]);
    var h := Exec(f, copy.ops);
    ResumeCopies(f, table, v);
    ThenCut(f, copy, tail, k);
    if HasRoom(f, table, v) && k > |copy.ops| {
      MarkThenErase(h, table, v);
      CutPair(h, tail.ops[0], tail.ops[1], k - |copy.ops|);
    }
  }

  /** The first record on an empty receiving page becomes its record 1. */
  lemma {:induction false} FirstOfPage(p: Page, r: Record, table: seq<HalfWord>)
    requires Holds(p, RECEIVE_DATA, table) && Used(p) == 1 && r.tag in table && GoodTable(table)
    ensures var t, q := Torn(p, 1, r), Appended(p, 1, r);
            && Holds(t, RECEIVE_DATA, table) && Used(t) <= 2 && (forall m :: Faithful(t, m))
            && Holds(q, RECEIVE_DATA, table) && Used(q) == 2 && (forall m :: Faithful(q, m)) && TagAt(q, 1) == r.tag
  {
    AppendHolds(p, RECEIVE_DATA, r, table);
    assert forall k: nat :: 2 <= k < Slots(p) && BlankSlot(p, k) ==> TagAt(p, k) == ERASED;
  }

  /** The first record of a transfer, cut anywhere: until its tag is programmed it does not exist. */
  lemma {:induction false} FirstCut(f: Flash, table: seq<HalfWord>, v: PageId, r: Record, k: nat)
    requires f.Shaped() && Interrupted(f, table, v) && GoodTable(table) && r.tag in table
    requires Used(f.At(v.Other())) == 1 && TagAt(f.At(v.Other()), 1) == ERASED && k <= 2
    ensures var plan := AppendPlan(f, r);
            && plan.final == FLASH_COMPLETE && |plan.ops| == 2 && LegalRun(f, plan.ops)
            && var g := Exec(f, plan.ops[..k]);
            && Interrupted(g, table, v) && g.At(v) == f.At(v)
            && Used(g.At(v.Other())) <= 2 && (k == 2 ==> Used(g.At(v.Other())) == 2)
            && Committed(g) == (if k < 2 then Committed(f) else Committed(f)[r.tag := r.data])
            && (k == 2 ==> g == Exec(f, plan.ops) && TagAt(g.At(v.Other()), 1) == r.tag)
  {
    hide StoreOf, Used, Holds, Faithful, Merged, Committed, AppendPlan, Exec, LegalRun, Torn, Appended, TagAt;
    var p := f.At(v.Other());
    ReceivingFacts(f, table, v);
    AppendExec(f, v.Other(), r, table, RECEIVE_DATA);
    FirstOfPage(p, r, table);
    var g := Exec(f, AppendPlan(f, r).ops[..k]);
    assert k == 0 || k == 1 || k == 2;
    assert Interrupted(g, table, v);
    ReceivingFacts(g, table, v);
    ErasedHasNoValue(f, table, v);
    ReceiveAny(p, StoreOf(f.At(v)), r, table);
  }

  lemma {:induction false} InterruptedReceives(f: Flash, table: seq<HalfWord>, v: PageId)
    requires Interrupted(f, table, v)
    ensures Receiving(f, table, v)
  {
  }

  /** The rest of a transfer once its first record is written, cut anywhere. */
  lemma {:induction false} CopyAndSwitchCut(f: Flash, table: seq<HalfWord>, v: PageId, tag: HalfWord, k: nat)
    requires f.Shaped() && Interrupted(f, table, v) && GoodTable(table) && tag in table && |table| < Slots(f.page0)
    requires Used(f.At(v.Other())) <= 2 && TagAt(f.At(v.Other()), 1) == tag
    requires k <= |CopyPlan(f, Survivors(table, 0, StoreOf(f.At(v)), tag)).Then(PromotePlan(v.Other())).ops|
    ensures var plan := CopyPlan(f, Survivors(table, 0, StoreOf(f.At(v)), tag)).Then(PromotePlan(v.Other()));
            var g := Exec(f, plan.ops[..k]);
            && plan.final == FLASH_COMPLETE && |plan.ops| >= 2
            && Committed(g) == Committed(f)
            && (if k == |plan.ops| then Mounted(g, table, v.Other())
                else if k == |plan.ops| - 1 then Switched(g, table, v.Other())
                else Interrupted(g, table, v))
            && Used(g.At(v.Other())) <= |table| + 1
  {
    hide Holds, Faithful, Committed, StoreOf, Exec, AppendPlan, CopyPlan, Survivors, Used, Mounted, Switched,
         Interrupted, TagAt, Copies, LegalRun;
    var w := v.Other();
    var copy := CopyPlan(f, Survivors(table, 0, StoreOf(f.At(v)), tag));
    SurvivorsAre(table, 0, StoreOf(f.At(v)), tag);
    assert table[0..] == table;
    InterruptedReceives(f, table, v);
    ResumeCopies(f, table, v);
    ThenCut(f, copy, PromotePlan(w), k);
    if k > |copy.ops| {
      EraseThenMark(Exec(f, copy.ops), table, v);
      CutPair(Exec(f, copy.ops), Erase(v), Program(w, 0, VALID_PAGE), k - |copy.ops|);
    }
  }

  /** Filling the new page, cut anywhere. */
  lemma {:induction false} FillCut(f: Flash, table: seq<HalfWord>, v: PageId, r: Record, k: nat)
    requires f.Shaped() && Interrupted(f, table, v) && GoodTable(table) && r.tag in table && |table| < Slots(f.page0)
    requires Used(f.At(v.Other())) == 1 && TagAt(f.At(v.Other()), 1) == ERASED
    requires k <= |FillPlan(f, table, v, r).ops|
    ensures var plan := FillPlan(f, table, v, r);
            var g := Exec(f, plan.ops[..k]);
            var n := |plan.ops|;
            && plan.final == FLASH_COMPLETE && n >= 4
            && Committed(g) == (if k < 2 then Committed(f) else Committed(f)[r.tag := r.data])
            && (if k == n then Mounted(g, table, v.Other())
                else if k == n - 1 then Switched(g, table, v.Other())
                else Interrupted(g, table, v))
            && Used(g.At(v.Other())) <= |table| + 1
  {
    hide Holds, Faithful, Committed, StoreOf, Exec, AppendPlan, CopyPlan, Survivors, Used, Mounted, Switched,
         Interrupted, TagAt, LegalRun;
    var first := AppendPlan(f, r);
    var g := Exec(f, first.ops);
    FirstCut(f, table, v, r, if k <= 2 then k else 2);
    FirstCut(f, table, v, r, 2);
    assert table != [];
    CopyAndSwitchCut(g, table, v, r.tag, if k <= 2 then 0 else k - 2);
    ThenCut(f, first, CopyPlan(g, Survivors(table, 0, StoreOf(f.At(v)), r.tag)).Then(PromotePlan(v.Other())), k);
  }

  /** A record that fits on the page in use, cut anywhere. */
  lemma {:induction false} AppendInPlaceCut(f: Flash, table: seq<HalfWord>, v: PageId, r: Record, k: nat)
    requires Mounted(f, table, v) && GoodTable(table) && r.tag in table && Used(f.At(v)) < Slots(f.At(v)) && k <= 2
    ensures var plan := AppendPlan(f, r);
            && plan.final == FLASH_COMPLETE && |plan.ops| == 2 && LegalRun(f, plan.ops)
            && var g := Exec(f, plan.ops[..k]);
            && Mounted(g, table, v)
            && Committed(g) == (if k < 2 then Committed(f) else Committed(f)[r.tag := r.data])
            && (k == 2 ==> Used(g.At(v)) == Used(f.At(v)) + 1)
  {
    hide StoreOf, Used, Holds, AppendPlan, Exec, LegalRun, Torn, Appended, Committed;
    MountedFacts(f, table, v);
    AppendExec(f, v, r, table, VALID_PAGE);
    AppendHolds(f.At(v), VALID_PAGE, r, table);
    var g := Exec(f, AppendPlan(f, r).ops[..k]);
    assert k == 0 || k == 1 || k == 2;
    assert Mounted(g, table, v);
    MountedFacts(g, table, v);
  }

  lemma {:induction false} MountedFacts(f: Flash, table: seq<HalfWord>, v: PageId)
    requires Mounted(f, table, v)
    ensures ReadPage(f) == Some(v) && WritePage(f) == Some(v) && Committed(f) == StoreOf(f.At(v))
    ensures f.Header(v) == VALID_PAGE && f.Header(v.Other()) == ERASED
  {
    assert ErasedPage(|f.At(v.Other())|)[0] == ERASED;
  }

  /** Marking the blank page as receiving begins a transfer. */
  lemma {:induction false} MarkInterrupts(f: Flash, table: seq<HalfWord>, v: PageId)
    requires Mounted(f, table, v) && GoodTable(table)
    ensures var g := Do(f, Program(v.Other(), 0, RECEIVE_DATA));
            && Interrupted(g, table, v) && g.At(v) == f.At(v) && Committed(g) == Committed(f)
            && Used(g.At(v.Other())) == 1 && TagAt(g.At(v.Other()), 1) == ERASED
            && Legal(f, Program(v.Other(), 0, RECEIVE_DATA))
  {
    hide StoreOf, Used, Holds, Faithful, Committed;
    var p := f.At(v.Other());
    MountedFacts(f, table, v);
    BurnFacts(RECEIVE_DATA);
    MarkBlank(p, table, RECEIVE_DATA);
    var g := Do(f, Program(v.Other(), 0, RECEIVE_DATA));
    assert g.At(v.Other()) == p[0 := RECEIVE_DATA];
    assert Faithful(g.At(v.Other()), StoreOf(f.At(v)));
    ReceivingFacts(g, table, v);
    ErasedHasNoValue(g, table, v);
    assert Merged(g.At(v.Other()), StoreOf(f.At(v))) == StoreOf(f.At(v));
  }

  /** A write that needs a transfer, cut anywhere. */
  lemma {:induction false} TransferCut(f: Flash, table: seq<HalfWord>, v: PageId, r: Record, k: nat)
    requires Mounted(f, table, v) && GoodTable(table) && r.tag in table && |table| < Slots(f.page0)
    requires k <= |TransferPlan(f, table, r).ops|
    ensures var plan := TransferPlan(f, table, r);
            var g := Exec(f, plan.ops[..k]);
            var n := |plan.ops|;
            && plan.final == FLASH_COMPLETE && n >= 5
            && Committed(g) == (if k < 3 then Committed(f) else Committed(f)[r.tag := r.data])
            && (if k == 0 then g == f
                else if k == n then Mounted(g, table, v.Other())
                else if k == n - 1 then Switched(g, table, v.Other())
                else Interrupted(g, table, v))
            && (k > 0 ==> Used(g.At(v.Other())) <= |table| + 1)
  {
    hide StoreOf, Used, Holds, Faithful, Committed, FillPlan, Mounted, Switched, Interrupted, Exec, Do;
    var mark := [Program(v.Other(), 0, RECEIVE_DATA)];
    var g := Exec(f, mark);
    MountedShape(f, table, v);
    ExecOne(f, mark[0]);
    MarkInterrupts(f, table, v);
    MountedFacts(f, table, v);
    ThenCut(f, All(mark), FillPlan(g, table, v, r), k);
    FillCut(g, table, v, r, 0);
    if k == 0 {
      assert mark[..0] == [];
      ExecNothing(f);
    } else if k == 1 {
      assert mark[..1] == mark && FillPlan(g, table, v, r).ops[..0] == [];
      ExecNothing(g);
    } else {
      FillCut(g, table, v, r, k - 1);
    }
  }

  lemma {:induction false} MountedShape(f: Flash, table: seq<HalfWord>, v: PageId)
    requires Mounted(f, table, v)
    ensures f.Shaped()
  {
  }

  /** EE_WriteVariable on a mounted store, cut after `k` primitives.  The flash stays recoverable and
      stands for the store with the write wholly absent or wholly present; a write that completes is
      present, and leaves the store mounted.  It never runs out of pages or of room. */
  lemma {:induction false} WriteCut(f: Flash, table: seq<HalfWord>, v: PageId, r: Record, k: nat)
    requires Mounted(f, table, v) && GoodTable(table) && r.tag in table && |table| < Slots(f.page0)
    requires k <= |WritePlan(f, table, r).ops|
    ensures var plan := WritePlan(f, table, r);
            var g := Exec(f, plan.ops[..k]);
            var done := k == |plan.ops|;
            && plan.final == FLASH_COMPLETE && |plan.ops| >= 2
            && (Committed(g) == Committed(f)[r.tag := r.data] || (!done && Committed(g) == Committed(f)))
            && (if Used(f.At(v)) < Slots(f.At(v)) then
                  Mounted(g, table, v) && (done ==> Used(g.At(v)) == Used(f.At(v)) + 1)
                else if done then Mounted(g, table, v.Other()) && Used(g.At(v.Other())) <= |table| + 1
                else
                  || Mounted(g, table, v)
                  || Switched(g, table, v.Other())
                  || (Interrupted(g, table, v) && Used(g.At(v.Other())) <= |table| + 1))
  {
    hide Holds, Committed, Mounted, Switched, Interrupted, TransferPlan, AppendPlan, Used;
    MountedShape(f, table, v);
    if Used(f.At(v)) < Slots(f.At(v)) {
      AppendInPlaceCut(f, table, v, r, if k <= 2 then k else 2);
    } else {
      FullPage(f, table, v, r);
      TransferCut(f, table, v, r, k);
      if k == 0 {
        ExecNothing(f);
      }
    }
  }

  lemma {:induction false} FullPage(f: Flash, table: seq<HalfWord>, v: PageId, r: Record)
    requires Mounted(f, table, v) && Used(f.At(v)) >= Slots(f.At(v))
    ensures AppendPlan(f, r) == Plan([], PAGE_FULL)
  {
    MountedFacts(f, table, v);
  }

  /** A transfer is under way, with (without) room to be completed. */
  ghost predicate CanResume(f: Flash, table: seq<HalfWord>) {
    exists v: PageId :: Receiving(f, table, v) && HasRoom(f, table, v)
  }

  ghost predicate Stuck(f: Flash, table: seq<HalfWord>) {
    exists v: PageId :: Receiving(f, table, v) && !HasRoom(f, table, v)
  }

  /** The headers tell the phases apart. */
  lemma {:induction false} HeadersTell(f: Flash, table: seq<HalfWord>)
    requires f.Shaped()
    ensures Virgin(f) ==> f.Header(Page0) == ERASED && f.Header(Page1) == ERASED
    ensures Doubled(f, table) ==> f.Header(Page0) == VALID_PAGE && f.Header(Page1) == VALID_PAGE
    ensures forall v :: Mounted(f, table, v) ==> f.Header(v) == VALID_PAGE && f.Header(v.Other()) == ERASED
    ensures forall v :: Switched(f, table, v) ==> f.Header(v) == RECEIVE_DATA && f.Header(v.Other()) == ERASED
    ensures forall v :: Receiving(f, table, v) ==> f.Header(v) == VALID_PAGE && f.Header(v.Other()) == RECEIVE_DATA
  {
    hide StoreUpTo, IsLog, FirstBlank, Faithful;
    assert ErasedPage(|f.page0|)[0] == ERASED && ErasedPage(|f.page1|)[0] == ERASED;
  }

  lemma {:induction false} SwitchedFacts(f: Flash, table: seq<HalfWord>, w: PageId)
    requires Switched(f, table, w)
    ensures f.Header(w) == RECEIVE_DATA && f.Header(w.Other()) == ERASED && Committed(f) == StoreOf(f.At(w))
    ensures Do(f, Erase(w.Other())) == f && InitPlan(f, table) == PromotePlan(w)
    ensures LegalRun(f, PromotePlan(w).ops)
  {
    assert ErasedPage(|f.At(w.Other())|)[0] == ERASED;
    LegalTwo(f, Erase(w.Other()), Program(w, 0, VALID_PAGE));
  }

  /** EE_Init beside a finished transfer erases a blank page and marks the other one valid. */
  lemma {:induction false} PromoteCut(f: Flash, table: seq<HalfWord>, w: PageId, k: nat)
    requires Switched(f, table, w) && k <= 2
    ensures InitPlan(f, table) == PromotePlan(w)
    ensures var g := Exec(f, PromotePlan(w).ops[..k]);
            && Committed(g) == Committed(f)
            && (if k < 2 then g == f else Mounted(g, table, w) && Used(g.At(w)) == Used(f.At(w)))
  {
    hide StoreOf, Used, Holds, Committed, Exec;
    SwitchedFacts(f, table, w);
    HeaderOnly(f.At(w), RECEIVE_DATA, table, VALID_PAGE);
    BurnFacts(RECEIVE_DATA);
    CutPair(f, Erase(w.Other()), Program(w, 0, VALID_PAGE), k);
    if k == 2 {
      var g := Do(f, Program(w, 0, VALID_PAGE));
      assert Mounted(g, table, w);
      MountedFacts(g, table, w);
    }
  }

  /** EE_Init on a mounted store erases a page that is already blank. */
  lemma {:induction false} TidyCut(f: Flash, table: seq<HalfWord>, v: PageId, k: nat)
    requires Mounted(f, table, v) && k <= 1
    ensures InitPlan(f, table) == All([Erase(v.Other())])
    ensures Exec(f, [Erase(v.Other())][..k]) == f
  {
    MountedFacts(f, table, v);
    var erase := Erase(v.Other());
    if k == 1 {
      assert [erase][..1] == [erase];
      ExecOne(f, erase);
    }
  }

  lemma {:induction false} CutTriple(f: Flash, a: Primitive, b: Primitive, c: Primitive, k: nat)
    requires k <= 3
    ensures Exec(f, [a, b, c][..k]) ==
            if k == 0 then f else if k == 1 then Do(f, a)
            else if k == 2 then Do(Do(f, a), b) else Do(Do(Do(f, a), b), c)
  {
    if k == 1 {
      assert [a, b, c][..1] == [a];
      ExecOne(f, a);
    } else if k == 2 {
      assert [a, b, c][..2] == [a, b];
      ExecTwo(f, a, b);
    } else if k == 3 {
      assert [a, b, c][..3] == [a, b] + [c];
      ExecConcat(f, [a, b], [c]);
      ExecTwo(f, a, b);
      ExecOne(Do(Do(f, a), b), c);
    }
  }

  /** The contents EE_Format goes through. */
  function Formatting(f: Flash, k: nat): Flash
    requires f.Shaped() && k <= 3
  {
    var blank := ErasedPage(|f.page0|);
    if k == 0 then f
    else if k == 1 then Flash(blank, f.page1)
    else if k == 2 then Flash(blank[0 := VALID_PAGE], f.page1)
    else Flash(blank[0 := VALID_PAGE], blank)
  }

  lemma {:induction false} FormatStates(f: Flash, k: nat)
    requires f.Shaped() && k <= 3
    ensures Exec(f, FORMAT_PLAN.ops[..k]) == Formatting(f, k) && LegalRun(f, FORMAT_PLAN.ops)
  {
    hide Exec;
    BurnFacts(VALID_PAGE);
    var a, b, c := Erase(Page0), Program(Page0, 0, VALID_PAGE), Erase(Page1);
    CutTriple(f, a, b, c, k);
    LegalTwo(Do(f, a), b, c);
    assert [a, b, c][1..] == [b, c];
  }

  /** A page that has just been formatted, beside another one. */
  lemma {:induction false} FreshPage(n: nat, table: seq<HalfWord>)
    requires n % 2 == 0 && n >= 4
    ensures var p := ErasedPage(n)[0 := VALID_PAGE];
            Holds(p, VALID_PAGE, table) && StoreOf(p) == map[] && Used(p) == 1
  {
    MarkBlank(ErasedPage(n), table, VALID_PAGE);
  }

  lemma {:induction false} FormatFromVirgin(f: Flash, table: seq<HalfWord>, k: nat)
    requires Virgin(f) && k <= 3
    ensures var g := Formatting(f, k);
            if k < 2 then Virgin(g) else Mounted(g, table, Page0) && StoreOf(g.page0) == map[] && Used(g.page0) == 1
  {
    hide Holds, StoreOf, Used;
    FreshPage(|f.page0|, table);
  }

  lemma {:induction false} FormatFromDoubled(f: Flash, table: seq<HalfWord>, k: nat)
    requires Doubled(f, table) && k <= 3
    ensures var g := Formatting(f, k);
            && (k == 0 || k == 2 ==> Doubled(g, table))
            && (k == 1 ==> Mounted(g, table, Page1) && g.page1 == f.page1)
            && (k == 3 ==> Mounted(g, table, Page0) && StoreOf(g.page0) == map[] && Used(g.page0) == 1)
  {
    hide Holds, StoreOf, Used;
    FreshPage(|f.page0|, table);
  }

  /** What formatting starts from. */
  lemma {:induction false} FormatBegins(f: Flash, table: seq<HalfWord>)
    requires f.Shaped() && (Virgin(f) || Doubled(f, table))
    ensures InitPlan(f, table) == FORMAT_PLAN && Committed(f) == map[]
    ensures Virgin(f) ==> !Doubled(f, table)
  {
    hide Virgin, Doubled, Merged;
    HeadersTell(f, table);
  }

  /** EE_Format, cut anywhere.  It starts from two blank pages or from two valid ones. */
  lemma {:induction false} FormatCut(f: Flash, table: seq<HalfWord>, k: nat)
    requires (Virgin(f) || Doubled(f, table)) && k <= 3
    ensures InitPlan(f, table) == FORMAT_PLAN && Committed(f) == map[] && LegalRun(f, FORMAT_PLAN.ops)
    ensures var g := Exec(f, FORMAT_PLAN.ops[..k]);
            && (Virgin(g) || IsMounted(g, table) || Doubled(g, table))
            && (Virgin(f) ==> !Doubled(g, table) && Committed(g) == map[])
            && (Doubled(f, table) ==> Committed(g) == if k == 1 then StoreOf(f.page1) else map[])
            && (k == 3 ==> Mounted(g, table, Page0) && Committed(g) == map[] && Used(g.page0) == 1)
  {
    hide Holds, StoreOf, Used, Exec, Committed, LegalRun, Formatting, InitPlan, Mounted;
    var g := Formatting(f, k);
    FormatBegins(f, table);
    FormatStates(f, k);
    if Virgin(f) {
      FormatFromVirgin(f, table, k);
    } else {
      FormatFromDoubled(f, table, k);
    }
    if v: PageId :| Mounted(g, table, v) {
      MountedFacts(g, table, v);
      HeadersTell(g, table);
    } else {
      FormatBegins(g, table);
    }
  }

  /** Pages whose headers make no sense are formatted, whatever else they hold. */
  lemma {:induction false} InvalidHeadersFormat(f: Flash, table: seq<HalfWord>)
    requires f.Shaped()
    requires match f.Header(Page0)
             case 0xFFFF => f.Header(Page1) !in {VALID_PAGE, RECEIVE_DATA}
             case 0xEEEE => f.Header(Page1) !in {VALID_PAGE, ERASED}
             case 0x0000 => f.Header(Page1) == VALID_PAGE
             case _ => true
    ensures InitPlan(f, table).final == FLASH_COMPLETE
    ensures var g := Exec(f, InitPlan(f, table).ops); Mounted(g, table, Page0) && StoreOf(g.page0) == map[]
  {
    hide Exec, Holds, StoreOf;
    FormatStates(f, 3);
    FreshPage(|f.page0|, table);
    assert FORMAT_PLAN.ops[..3] == FORMAT_PLAN.ops;
  }

  lemma {:induction false} ResumeInit(f: Flash, table: seq<HalfWord>, v: PageId)
    requires Receiving(f, table, v)
    ensures InitPlan(f, table) == ResumePlan(f, table, v)
  {
  }

  /** What any cut of EE_Init can leave: never worse than before, except for the one window of a
      resumed transfer between the VALID mark and the erase. */
  ghost predicate InitOutcome(f: Flash, table: seq<HalfWord>, k: nat, plan: Plan, g: Flash)
    requires f.Shaped() && g.Shaped()
  {
    && (Recoverable(g, table) || Doubled(g, table))
    && plan.final == (if Stuck(f, table) then PAGE_FULL else FLASH_COMPLETE)
    && (k == |plan.ops| && plan.final == FLASH_COMPLETE ==> IsMounted(g, table) && Committed(g) == Committed(f))
    && (Recoverable(f, table) && !Doubled(g, table) ==> Committed(g) == Committed(f))
    && (Recoverable(f, table) ==> (Doubled(g, table) <==> CanResume(f, table) && k == |plan.ops| - 1))
  }

  lemma {:induction false} InitFromMounted(f: Flash, table: seq<HalfWord>, v: PageId, k: nat)
    requires f.Shaped() && Mounted(f, table, v) && k <= 1
    ensures |InitPlan(f, table).ops| == 1
    ensures InitOutcome(f, table, k, InitPlan(f, table), Exec(f, InitPlan(f, table).ops[..k]))
  {
    hide Committed, HasRoom, Exec, Mounted, Switched, Receiving, Virgin, Doubled, InitPlan;
    HeadersTell(f, table);
    TidyCut(f, table, v, k);
  }

  lemma {:induction false} InitFromSwitched(f: Flash, table: seq<HalfWord>, w: PageId, k: nat)
    requires f.Shaped() && Switched(f, table, w) && k <= 2
    ensures |InitPlan(f, table).ops| == 2
    ensures InitOutcome(f, table, k, InitPlan(f, table), Exec(f, InitPlan(f, table).ops[..k]))
  {
    hide Committed, HasRoom, Exec, Mounted, Switched, Receiving, Virgin, Doubled, InitPlan;
    HeadersTell(f, table);
    PromoteCut(f, table, w, k);
    HeadersTell(Exec(f, PromotePlan(w).ops[..k]), table);
  }

  lemma {:induction false} InitFromFormat(f: Flash, table: seq<HalfWord>, k: nat)
    requires f.Shaped() && (Virgin(f) || Doubled(f, table)) && k <= 3
    ensures |InitPlan(f, table).ops| == 3
    ensures InitOutcome(f, table, k, InitPlan(f, table), Exec(f, InitPlan(f, table).ops[..k]))
  {
    hide Committed, HasRoom, Exec, Mounted, Switched, Receiving, Virgin, Doubled, InitPlan;
    HeadersTell(f, table);
    FormatCut(f, table, k);
    HeadersTell(Exec(f, FORMAT_PLAN.ops[..k]), table);
  }

  lemma {:induction false} InitFromReceiving(f: Flash, table: seq<HalfWord>, v: PageId, k: nat)
    requires f.Shaped() && Receiving(f, table, v) && GoodTable(table) && k <= |InitPlan(f, table).ops|
    ensures InitOutcome(f, table, k, InitPlan(f, table), Exec(f, InitPlan(f, table).ops[..k]))
  {
    hide Committed, HasRoom, Exec, Mounted, Switched, Receiving, Virgin, Doubled, ResumePlan;
    HeadersTell(f, table);
    ResumeCut(f, table, v, k);
    HeadersTell(Exec(f, ResumePlan(f, table, v).ops[..k]), table);
  }

  /** EE_Init on any flash the emulation can leave, cut after `k` primitives. */
  lemma {:induction false} InitCut(f: Flash, table: seq<HalfWord>, k: nat)
    requires f.Shaped() && (Recoverable(f, table) || Doubled(f, table)) && GoodTable(table)
    requires k <= |InitPlan(f, table).ops|
    ensures InitOutcome(f, table, k, InitPlan(f, table), Exec(f, InitPlan(f, table).ops[..k]))
  {
    hide InitOutcome, Exec, Mounted, Switched, Receiving, Virgin, Doubled, InitPlan;
    if v: PageId :| Mounted(f, table, v) {
      InitFromMounted(f, table, v, 0);
      InitFromMounted(f, table, v, k);
    } else if w: PageId :| Switched(f, table, w) {
      InitFromSwitched(f, table, w, 0);
      InitFromSwitched(f, table, w, k);
    } else if v: PageId :| Receiving(f, table, v) {
      InitFromReceiving(f, table, v, k);
    } else {
      InitFromFormat(f, table, 0);
      InitFromFormat(f, table, k);
    }
  }
}
