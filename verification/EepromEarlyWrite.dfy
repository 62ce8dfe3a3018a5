/** EE_WriteVariable on a flash that is not mounted: nothing keeps a caller from writing before EE_Init
    has repaired the pages. */
module EepromEarlyWrite {
  import opened Basics
  import opened FlashMemory
  import opened PageLog
  import opened EepromPlan
  import opened EepromPhases
  import opened EepromRecovery
  import opened EepromCrash

  /** Reads are served from one page, writes go to the other, and that one is full. */
  predicate Refused(f: Flash)
    requires f.Shaped()
  {
    && ReadPage(f).Some? && WritePage(f) == Some(ReadPage(f).value.Other())
    && var p := f.At(ReadPage(f).value.Other()); Used(p) == Slots(p)
  }

  /** A write of `r` is going to complete and have no effect: both pages are valid, so EE_Init will
      format them, or a transfer is under way and EE_Init will copy another value over it. */
  predicate Overruled(f: Flash, r: Record)
    requires f.Shaped()
  {
    && ReadPage(f).Some? && WritePage(f) == Some(ReadPage(f).value.Other()) && !Refused(f)
    && var v := ReadPage(f).value;
       || f.Header(v.Other()) == VALID_PAGE
       || (Outvoted(f.At(v.Other()), StoreOf(f.At(v)), r) && StoreOf(f.At(v))[r.tag] != r.data)
  }

  /** A full page beside the one that reads are served from: all that happens is that its header is
      programmed once more, to no effect. */
  lemma {:induction false} RefusedPlan(f: Flash, table: seq<HalfWord>, v: PageId, r: Record)
    requires TransferSides(f, v) && Refused(f) && f.Header(v.Other()) in {RECEIVE_DATA, VALID_PAGE}
    ensures var again := Program(v.Other(), 0, RECEIVE_DATA);
            Do(f, again) == f && WritePlan(f, table, r) == Plan([again], PAGE_FULL)
  {
    hide StoreOf, Survivors, CopyPlan, Burn;
    HeaderAgain(f, v.Other());
    ExecOne(f, Program(v.Other(), 0, RECEIVE_DATA));
    assert AppendPlan(f, r) == Plan([], PAGE_FULL);
  }

  /** A write beside the page that reads are served from, cut anywhere. */
  lemma {:induction false} BesidesCut(f: Flash, table: seq<HalfWord>, v: PageId, h: HalfWord, r: Record, k: nat)
    requires TransferSides(f, v) && Holds(f.At(v.Other()), h, table) && h in {RECEIVE_DATA, VALID_PAGE}
    requires k <= |WritePlan(f, table, r).ops|
    ensures var w, plan := v.Other(), WritePlan(f, table, r);
            var p, g := f.At(w), Exec(f, plan.ops[..k]);
            && 1 <= Used(p)
            && (Refused(f) <==> Used(p) >= Slots(p))
            && (if Refused(f) then plan == Plan([Program(w, 0, RECEIVE_DATA)], PAGE_FULL) && g == f
                else
                  && plan.final == FLASH_COMPLETE && |plan.ops| == 2 && LegalRun(f, plan.ops)
                  && g == f.With(w,
                         if k == 0 then p else if k == 1 then Torn(p, Used(p), r) else Appended(p, Used(p), r)))
  {
    hide StoreOf, Used, AppendPlan, Exec, LegalRun, Torn, Appended, TransferPlan;
    var w := v.Other();
    AppendExec(f, w, r, table, h);
    if Refused(f) {
      RefusedPlan(f, table, v, r);
      var again := Program(w, 0, RECEIVE_DATA);
      ExecNothing(f);
      ExecOne(f, again);
      assert [again][..0] == [] && [again][..1] == [again];
    } else {
      assert k == 0 || k == 1 || k == 2;
    }
  }

  /** A write while a transfer is under way, cut anywhere: it is wholly absent or wholly present, except
      that one which is outvoted leaves what EE_Init is going to make of the flash as it was. */
  lemma {:induction false} EarlyCut(f: Flash, table: seq<HalfWord>, v: PageId, r: Record, k: nat)
    requires Receiving(f, table, v) && GoodTable(table) && r.tag in table
    requires k <= |WritePlan(f, table, r).ops|
    ensures var w, plan := v.Other(), WritePlan(f, table, r);
            var g := Exec(f, plan.ops[..k]);
            && Receiving(g, table, v) && g.At(v) == f.At(v)
            && Used(f.At(w)) <= Used(g.At(w)) <= Used(f.At(w)) + 1
            && (Used(f.At(w)) >= 2 ==> TagAt(g.At(w), 1) == TagAt(f.At(w), 1))
            && (Refused(f) ==> g == f)
            && (if Refused(f) then |plan.ops| == 1 && plan.final == PAGE_FULL
                else |plan.ops| == 2 && plan.final == FLASH_COMPLETE)
            && Committed(g) == if k < 2 || Outvoted(f.At(w), StoreOf(f.At(v)), r) then Committed(f)
                               else Committed(f)[r.tag := r.data]
  {
    hide StoreOf, Used, Merged, Committed, Exec, LegalRun, Torn, Appended, WritePlan, WritePage, ReadPage, Refused,
         Outvoted, Holds;
    var w := v.Other();
    var p := f.At(w);
    var g := Exec(f, WritePlan(f, table, r).ops[..k]);
    ReceivingFacts(f, table, v);
    BesidesCut(f, table, v, RECEIVE_DATA, r, k);
    if !Refused(f) {
      AppendHolds(p, RECEIVE_DATA, r, table);
      ErasedHasNoValue(f, table, v);
      ReceiveAny(p, StoreOf(f.At(v)), r, table);
      assert g.At(v) == f.At(v) && Receiving(g, table, v);
      ReceivingFacts(g, table, v);
    }
  }

  /** A write beside two valid pages, cut anywhere, goes to page 1 and is formatted away with it. */
  lemma {:induction false} DoubledCut(f: Flash, table: seq<HalfWord>, r: Record, k: nat)
    requires Doubled(f, table) && GoodTable(table) && r.tag in table
    requires k <= |WritePlan(f, table, r).ops|
    ensures TransferSides(f, Page0)
    ensures var plan := WritePlan(f, table, r);
            var g := Exec(f, plan.ops[..k]);
            && Doubled(g, table) && Committed(g) == Committed(f) == map[]
            && (if Refused(f) then |plan.ops| == 1 && plan.final == PAGE_FULL
                else |plan.ops| == 2 && plan.final == FLASH_COMPLETE)
  {
    hide StoreOf, Used, Merged, Exec, LegalRun, Torn, Appended, WritePlan, Refused;
    BesidesCut(f, table, Page0, VALID_PAGE, r, k);
    if !Refused(f) {
      AppendHolds(f.page1, VALID_PAGE, r, table);
    }
  }

  /** Without a valid page, a write does nothing and says so. */
  lemma {:induction false} NowhereToWrite(f: Flash, table: seq<HalfWord>, r: Record)
    requires f.Shaped() && (Virgin(f) || Switched(f, table, Page0) || Switched(f, table, Page1))
    ensures WritePage(f) == None && ReadPage(f) == None && WritePlan(f, table, r) == Plan([], NO_VALID_PAGE)
  {
    hide Virgin, Switched;
    HeadersTell(f, table);
  }
}
