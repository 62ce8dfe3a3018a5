/** Flash legality: every primitive the emulation ever issues respects the medium (FlashMemory.Legal). */
module EepromLegal {
  import opened FlashMemory
  import opened PageLog
  import opened EepromPlan
  import opened EepromPhases
  import opened EepromRecovery
  import opened EepromCrash
  import opened EepromEarlyWrite

  lemma {:induction false} ThenLegal(f: Flash, one: Plan, more: Plan)
    requires LegalRun(f, one.ops)
    requires one.final == FLASH_COMPLETE ==> LegalRun(Exec(f, one.ops), more.ops)
    ensures LegalRun(f, one.Then(more).ops)
  {
    if one.final == FLASH_COMPLETE {
      LegalRunConcat(f, one.ops, more.ops);
    }
  }

  lemma {:induction false} CopyLegal(f: Flash, table: seq<HalfWord>, v: PageId, rs: seq<Record>)
    requires f.Shaped() && Receiving(f, table, v) && GoodTable(table)
    requires Copies(rs, StoreOf(f.At(v)), TagAt(f.At(v.Other()), 1), table)
    ensures LegalRun(f, CopyPlan(f, rs).ops)
    decreases |rs|
  {
    hide Holds, Faithful, Committed, Copies, Tags, AppendPlan, Used, Exec, CopyPlan, StoreOf, TagAt;
    CopyUnfold(f, rs);
    if rs != [] {
      var skip := TagAt(f.At(v.Other()), 1);
      var one := AppendPlan(f, rs[0]);
      var g := Exec(f, one.ops);
      CopiesRest(rs, StoreOf(f.At(v)), skip, table, skip);
      CopyOneCut(f, table, v, rs[0], |one.ops|);
      if one.final == FLASH_COMPLETE {
        CopiesRest(rs, StoreOf(f.At(v)), skip, table, TagAt(g.At(v.Other()), 1));
        CopyLegal(g, table, v, rs[1..]);
      }
      ThenLegal(f, one, CopyPlan(g, rs[1..]));
    }
  }

  lemma {:induction false} ResumeLegal(f: Flash, table: seq<HalfWord>, v: PageId)
    requires f.Shaped() && Receiving(f, table, v) && GoodTable(table)
    ensures LegalRun(f, ResumePlan(f, table, v).ops)
  {
    hide Holds, Faithful, Committed, StoreOf, Exec, CopyPlan, Survivors, Missing, HasRoom, Used, Copies, LegalRun;
    var w := v.Other();
    var rs := Survivors(table, 0, StoreOf(f.At(v)), TagAt(f.At(w), 1));
    var copy := CopyPlan(f, rs);
    SurvivorsAre(table, 0, StoreOf(f.At(v)), TagAt(f.At(w), 1));
    CopyLegal(f, table, v, rs);
    ResumeCopies(f, table, v);
    if copy.final == FLASH_COMPLETE {
      MarkThenErase(Exec(f, copy.ops), table, v);
    }
    ThenLegal(f, copy, All([Program(w, 0, VALID_PAGE), Erase(v)]));
  }

  lemma {:induction false} FillLegal(f: Flash, table: seq<HalfWord>, v: PageId, r: Record)
    requires f.Shaped() && Interrupted(f, table, v) && GoodTable(table) && r.tag in table
    requires Used(f.At(v.Other())) == 1 && TagAt(f.At(v.Other()), 1) == ERASED
    ensures LegalRun(f, FillPlan(f, table, v, r).ops)
  {
    hide Holds, Faithful, Committed, StoreOf, Exec, AppendPlan, CopyPlan, Survivors, Used, Copies, LegalRun, HasRoom;
    var w := v.Other();
    var first := AppendPlan(f, r);
    var g := Exec(f, first.ops);
    var rs := Survivors(table, 0, StoreOf(f.At(v)), r.tag);
    var copy := CopyPlan(g, rs);
    FirstCut(f, table, v, r, 2);
    assert first.ops[..2] == first.ops;
    SurvivorsAre(table, 0, StoreOf(f.At(v)), r.tag);
    InterruptedReceives(g, table, v);
    CopyLegal(g, table, v, rs);
    ResumeCopies(g, table, v);
    if copy.final == FLASH_COMPLETE {
      EraseThenMark(Exec(g, copy.ops), table, v);
    }
    ThenLegal(g, copy, PromotePlan(w));
    ThenLegal(f, first, copy.Then(PromotePlan(w)));
  }

  lemma {:induction false} MountedWriteLegal(f: Flash, table: seq<HalfWord>, v: PageId, r: Record)
    requires f.Shaped() && Mounted(f, table, v) && GoodTable(table) && r.tag in table
    ensures LegalRun(f, WritePlan(f, table, r).ops)
  {
    hide Holds, Faithful, Committed, StoreOf, AppendPlan, FillPlan, Used, LegalRun, Mounted, Exec;
    if Used(f.At(v)) < Slots(f.At(v)) {
      AppendInPlaceCut(f, table, v, r, 2);
    } else {
      FullPage(f, table, v, r);
      MountedFacts(f, table, v);
      MarkInterrupts(f, table, v);
      var mark := Program(v.Other(), 0, RECEIVE_DATA);
      ExecOne(f, mark);
      LegalOne(f, mark);
      FillLegal(Do(f, mark), table, v, r);
      ThenLegal(f, All([mark]), FillPlan(Do(f, mark), table, v, r));
    }
  }

  /** Whatever phase the flash is in, every primitive of a write is legal at the moment it is issued,
      unless the write is refused; then the only primitive there is programs a header once more, to no
      effect. */
  lemma {:induction false} WriteLegal(f: Flash, table: seq<HalfWord>, r: Record)
    requires f.Shaped() && (Recoverable(f, table) || Doubled(f, table)) && GoodTable(table) && r.tag in table
    ensures LegalRun(f, WritePlan(f, table, r).ops) <==> !Refused(f)
    ensures Refused(f) ==>
              var again := Program(ReadPage(f).value.Other(), 0, RECEIVE_DATA);
              Do(f, again) == f && WritePlan(f, table, r) == Plan([again], PAGE_FULL)
  {
    hide Virgin, Mounted, Switched, Doubled, Receiving, LegalRun, StoreOf, Holds, WritePlan, Refused, Do;
    HeadersTell(f, table);
    if v: PageId :| Mounted(f, table, v) {
      MountedWriteLegal(f, table, v, r);
      MountedFacts(f, table, v);
      NotBesides(f, v);
    } else if v: PageId :| Receiving(f, table, v) {
      ReceivingFacts(f, table, v);
      BesidesLegal(f, table, v, r);
    } else if Doubled(f, table) {
      DoubledCut(f, table, r, 0);
      BesidesLegal(f, table, Page0, r);
    } else {
      NowhereToWrite(f, table, r);
      NotBesides(f, Page0);
      assert LegalRun(f, []) by {
        LegalNone(f);
      }
    }
  }

  lemma {:induction false} LegalNone(f: Flash)
    ensures LegalRun(f, [])
  {
  }

  lemma {:induction false} NotBesides(f: Flash, v: PageId)
    requires f.Shaped() && WritePage(f) == ReadPage(f)
    ensures !Refused(f)
  {
  }

  lemma {:induction false} BesidesLegal(f: Flash, table: seq<HalfWord>, v: PageId, r: Record)
    requires TransferSides(f, v) && (Receiving(f, table, v) || (Doubled(f, table) && v == Page0))
    ensures LegalRun(f, WritePlan(f, table, r).ops) <==> !Refused(f)
    ensures Refused(f) ==>
              var again := Program(v.Other(), 0, RECEIVE_DATA);
              Do(f, again) == f && WritePlan(f, table, r) == Plan([again], PAGE_FULL)
  {
    hide StoreOf, WritePlan, Used, Exec;
    var h := f.Header(v.Other());
    HeadersTell(f, table);
    assert Holds(f.At(v.Other()), h, table);
    BesidesCut(f, table, v, h, r, 0);
    if Refused(f) {
      HeaderAgain(f, v.Other());
      var again := Program(v.Other(), 0, RECEIVE_DATA);
      assert !Legal(f, again);
    }
  }

  lemma {:induction false} LegalOne(f: Flash, a: Primitive)
    requires Legal(f, a)
    ensures LegalRun(f, [a])
  {
    assert LegalRun(Do(f, a), []) && [a][1..] == [];
  }

  /** Every primitive of EE_Init is legal at the moment it is issued. */
  lemma {:induction false} InitLegal(f: Flash, table: seq<HalfWord>)
    requires f.Shaped() && (Recoverable(f, table) || Doubled(f, table)) && GoodTable(table)
    ensures LegalRun(f, InitPlan(f, table).ops)
  {
    hide LegalRun, Exec, Mounted, Switched, Receiving, Virgin, Doubled, InitPlan, ResumePlan;
    if v: PageId :| Mounted(f, table, v) {
      TidyCut(f, table, v, 0);
      LegalOne(f, Erase(v.Other()));
    } else if w: PageId :| Switched(f, table, w) {
      PromoteCut(f, table, w, 0);
      SwitchedFacts(f, table, w);
    } else if v: PageId :| Receiving(f, table, v) {
      ResumeInit(f, table, v);
      ResumeLegal(f, table, v);
    } else {
      FormatCut(f, table, 0);
    }
  }
}
