/** The EEPROM emulation driver.  Every call carries out its plan (EepromPlan) step by step and
    stops at the first primitive the flash does not complete. */
module EepromDriver {
  import opened Basics
  import opened FlashMemory
  import opened PageLog
  import opened EepromPlan
  import opened EepromProgress

  datatype ReadStatus = Found | NotFound | NoValidPage

  datatype Operation = ReadFromValidPage | WriteInValidPage

  /** What the headers say about the page selected for an operation: none exactly if no page is valid; a
      page to read from is valid; a page to write to is receiving beside a valid one, or it is valid
      and nothing is receiving beside it. */
  predicate Selects(f: Flash, operation: Operation, page: Option<PageId>)
    requires f.Shaped()
  {
    && (page == None <==> f.Header(Page0) != VALID_PAGE && f.Header(Page1) != VALID_PAGE)
    && (page.Some? ==>
          var own, beside := f.Header(page.value), f.Header(page.value.Other());
          match operation
          case ReadFromValidPage => own == VALID_PAGE
          case WriteInValidPage =>
            || (own == RECEIVE_DATA && beside == VALID_PAGE)
            || (own == VALID_PAGE && beside != RECEIVE_DATA))
  }

  class Driver {
    const page0: array<HalfWord>
    const page1: array<HalfWord>
    /** VirtAddVarTab */
    const table: seq<HalfWord>
    /** The flash controller's answer to the n-th primitive it is ever given.  Anything but
        FLASH_COMPLETE, a power cut included, leaves the flash as it was. */
    const verdict: Verdict
    var clock: nat
    /** DataVar: the value the last successful read delivered. */
    var dataVar: HalfWord

    ghost predicate Valid()
      reads page0, page1
    {
      page0 != page1 && Content().Shaped() && GoodTable(table)
    }

    ghost function Content(): Flash
      reads page0, page1
    {
      Flash(page0[..], page1[..])
    }

    ghost function Now(): Moment
      reads `clock, page0, page1
    {
      Moment(Content(), clock)
    }

    constructor (page0: array<HalfWord>, page1: array<HalfWord>, table: seq<HalfWord>, verdict: Verdict)
      requires page0 != page1 && Flash(page0[..], page1[..]).Shaped() && GoodTable(table)
      ensures Valid() && this.page0 == page0 && this.page1 == page1
      ensures this.table == table && this.verdict == verdict && clock == 0
    {
      this.page0, this.page1, this.table, this.verdict := page0, page1, table, verdict;
      clock, dataVar := 0, 0;
    }

    method ProgramHalfWord(p: PageId, offset: nat, value: HalfWord) returns (status: int)
      requires Valid() && offset < |Content().At(p)|
      modifies page0, page1, `clock
      ensures Valid() && Answered(verdict, old(Now()), Program(p, offset, value), status, Now())
    {
      status := verdict(clock);
      if status == FLASH_COMPLETE {
        if p.Page0? {
          page0[offset] := Burn(page0[offset], value);
        } else {
          page1[offset] := Burn(page1[offset], value);
        }
      }
      clock := clock + 1;
    }

    method EraseSector(p: PageId) returns (status: int)
      requires Valid()
      modifies page0, page1, `clock
      ensures Valid() && Answered(verdict, old(Now()), Erase(p), status, Now())
    {
      status := verdict(clock);
      if status == FLASH_COMPLETE {
        var page := if p.Page0? then page0 else page1;
        forall i | 0 <= i < page.Length {
          page[i] := ERASED;
        }
        assert Content() == Do(old(Content()), Erase(p));
      }
      clock := clock + 1;
    }

    /** EE_FindValidPage */
    method FindValidPage(operation: Operation) returns (page: Option<PageId>)
      requires Valid()
      ensures page == if operation.ReadFromValidPage? then ReadPage(Content()) else WritePage(Content())
      ensures Selects(Content(), operation, page)
    {
      var status0, status1 := page0[0], page1[0];
      match operation
      case WriteInValidPage =>
        if status1 == VALID_PAGE {
          if status0 == RECEIVE_DATA {
            return Some(Page0);
          } else {
            return Some(Page1);
          }
        } else if status0 == VALID_PAGE {
          if status1 == RECEIVE_DATA {
            return Some(Page1);
          } else {
            return Some(Page0);
          }
        } else {
          return None;
        }
      case ReadFromValidPage =>
        if status0 == VALID_PAGE {
          return Some(Page0);
        } else if status1 == VALID_PAGE {
          return Some(Page1);
        } else {
          return None;
        }
    }

    /** EE_ReadVariable: the latest value the page in use holds for the variable. */
    method ReadVariable(virtAddress: HalfWord) returns (status: ReadStatus)
      requires Valid() && virtAddress != ERASED
      modifies `dataVar
      ensures status == NoValidPage <==> ReadPage(Content()) == None
      ensures ReadPage(Content()).Some? ==>
                var m := StoreOf(Content().At(ReadPage(Content()).value));
                && (status == Found <==> virtAddress in m)
                && (status == Found ==> dataVar == m[virtAddress])
      ensures status != Found ==> dataVar == old(dataVar)
    {
      hide Selects, GoodTable, Lookup, StoreUpTo;
      var validPage := FindValidPage(ReadFromValidPage);
      if validPage == None {
        return NoValidPage;
      }
      var page := if validPage.value.Page0? then page0 else page1;
      ghost var p := page[..];
      BackwardReadIsForwardReplay(p, virtAddress, Slots(p));
      status := NotFound;
      var address := page.Length - 1;
      while address > 1
        invariant address % 2 == 1 && 1 <= address < page.Length
        invariant status == NotFound && dataVar == old(dataVar)
        invariant Lookup(p, virtAddress, Slots(p)) == Lookup(p, virtAddress, (address + 1) / 2)
      {
        SearchStep(p, virtAddress, address);
        if page[address] == virtAddress {
          dataVar := page[address - 1];
          return Found;
        } else {
          address := address - 2;
        }
      }
      SearchStep(p, virtAddress, address);
    }

    /** Programs the data half-word of a record, then its tag. */
    method ProgramRecord(w: PageId, address: nat, r: Record) returns (status: int, ghost done: nat)
      requires Valid() && address + 1 < |Content().At(w)|
      modifies page0, page1, `clock
      ensures Valid()
      ensures Ran(verdict, old(Now()), All([Program(w, address, r.data), Program(w, address + 1, r.tag)]),
                  done, status, Now())
    {
      ghost var start, now, issued := Now(), Now(), [];
      ghost var plan := All([Program(w, address, r.data), Program(w, address + 1, r.tag)]);
      status := ProgramHalfWord(w, address, r.data);
      Progress(verdict, start, plan, issued, now, plan.ops[0], status, Now());
      if status != FLASH_COMPLETE {
        return status, |issued|;
      }
      issued, now := issued + [plan.ops[0]], Now();
      status := ProgramHalfWord(w, address + 1, r.tag);
      Progress(verdict, start, plan, issued, now, plan.ops[1], status, Now());
      if status != FLASH_COMPLETE {
        return status, |issued|;
      }
      issued, now := issued + [plan.ops[1]], Now();
      RanAll(verdict, start, plan, issued, Now());
      return FLASH_COMPLETE, |issued|;
    }

    /** EE_VerifyPageFullWriteVariable */
    method VerifyPageFullWriteVariable(virtAddress: HalfWord, data: HalfWord) returns (status: int, ghost done: nat)
      requires Valid()
      modifies page0, page1, `clock
      ensures Valid()
      ensures Ran(verdict, old(Now()), AppendPlan(old(Content()), Record(virtAddress, data)), done, status, Now())
    {
      hide Ran, Exec, Selects, GoodTable, Burn, FirstBlank, AppendPlan;
      ghost var f := Content();
      var validPage := FindValidPage(WriteInValidPage);
      if validPage == None {
        NowhereToAppend(f, Record(virtAddress, data));
        RanNone(verdict, Now(), NO_VALID_PAGE);
        return NO_VALID_PAGE, 0;
      }
      var w := validPage.value;
      var page := if w.Page0? then page0 else page1;
      ghost var r := Record(virtAddress, data);
      var address := 0;
      while address < page.Length - 1
        invariant address % 2 == 0 && address <= page.Length
        invariant Content() == f && Now() == old(Now())
        invariant FirstBlank(f.At(w), 0) == FirstBlank(f.At(w), address / 2)
        decreases page.Length - address
      {
        if page[address] == ERASED && page[address + 1] == ERASED {
          ScanEnds(f, w, r, address);
          status, done := ProgramRecord(w, address, Record(virtAddress, data));
          return;
        } else {
          ScanStep(f.At(w), address);
          address := address + 2;
        }
      }
      ScanEnds(f, w, r, address);
      RanNone(verdict, Now(), PAGE_FULL);
      return PAGE_FULL, 0;
    }

    /** EE_WriteVariable */
    method WriteVariable(virtAddress: HalfWord, data: HalfWord) returns (status: int, ghost done: nat)
      requires Valid()
      modifies page0, page1, `clock, `dataVar
      ensures Valid()
      ensures Ran(verdict, old(Now()), WritePlan(old(Content()), table, Record(virtAddress, data)), done, status, Now())
    {
      ghost var start, append := Now(), AppendPlan(Content(), Record(virtAddress, data));
      status, done := VerifyPageFullWriteVariable(virtAddress, data);
      if status == PAGE_FULL {
        FullLeavesAll(verdict, start, append, done, Now());
        status, done := PageTransfer(virtAddress, data);
      }
    }

    /** EE_Format */
    method Format() returns (status: int, ghost done: nat)
      requires Valid()
      modifies page0, page1, `clock
      ensures Valid()
      ensures Ran(verdict, old(Now()), FORMAT_PLAN, done, status, Now())
    {
      ghost var start, now, issued := Now(), Now(), [];
      status := EraseSector(Page0);
      Progress(verdict, start, FORMAT_PLAN, issued, now, Erase(Page0), status, Now());
      if status != FLASH_COMPLETE {
        return status, |issued|;
      }
      issued, now := issued + [Erase(Page0)], Now();
      status := ProgramHalfWord(Page0, 0, VALID_PAGE);
      Progress(verdict, start, FORMAT_PLAN, issued, now, Program(Page0, 0, VALID_PAGE), status, Now());
      if status != FLASH_COMPLETE {
        return status, |issued|;
      }
      issued, now := issued + [Program(Page0, 0, VALID_PAGE)], Now();
      status := EraseSector(Page1);
      Progress(verdict, start, FORMAT_PLAN, issued, now, Erase(Page1), status, Now());
      if status != FLASH_COMPLETE {
        return status, |issued|;
      }
      issued, now := issued + [Erase(Page1)], Now();
      RanAll(verdict, start, FORMAT_PLAN, issued, Now());
      return FLASH_COMPLETE, |issued|;
    }

    /** EE_PageTransfer */
    method PageTransfer(virtAddress: HalfWord, data: HalfWord) returns (status: int, ghost done: nat)
      requires Valid()
      requires ReadPage(Content()).Some? ==> AppendPlan(Content(), Record(virtAddress, data)).final == PAGE_FULL
      modifies page0, page1, `clock, `dataVar
      ensures Valid()
      ensures Ran(verdict, old(Now()), TransferPlan(old(Content()), table, Record(virtAddress, data)),
                  done, status, Now())
    {
      hide FillPlan, Selects, GoodTable, AppendPlan, Ran, Issued, WritePage;
      ghost var start, now, issued := Now(), Now(), [];
      var validPage := FindValidPage(ReadFromValidPage);
      if validPage == None {
        RanNone(verdict, start, NO_VALID_PAGE);
        return NO_VALID_PAGE, 0;
      }
      var v := validPage.value;
      ghost var f, r, mark := Content(), Record(virtAddress, data), Program(v.Other(), 0, RECEIVE_DATA);
      ghost var plan := TransferPlan(f, table, r);
      Begin(verdict, start, plan);
      status := ProgramHalfWord(v.Other(), 0, RECEIVE_DATA);
      Progress(verdict, start, plan, issued, now, mark, status, Now());
      if status != FLASH_COMPLETE {
        return status, |issued|;
      }
      issued, now := issued + [mark], Now();
      ExecOne(f, mark);
      MarkSides(f, v, r);
      ghost var fill := FillPlan(now.flash, table, v, r);
      status, done := FillAndSwitch(v, virtAddress, data);
      Sequel(verdict, start, plan, issued, now, fill, All([]), done, status, Now());
      if status == FLASH_COMPLETE {
        RanAll(verdict, start, plan, issued + fill.ops, Now());
      }
      return status, |issued| + done;
    }

    /** EE_PageTransfer once the new page is marked: the new record, the other variables, the switch. */
    method FillAndSwitch(v: PageId, virtAddress: HalfWord, data: HalfWord) returns (status: int, ghost done: nat)
      requires Valid()
      requires TransferSides(Content(), v) || AppendPlan(Content(), Record(virtAddress, data)) == Plan([], PAGE_FULL)
      modifies page0, page1, `clock, `dataVar
      ensures Valid()
      ensures Ran(verdict, old(Now()), FillPlan(old(Content()), table, v, Record(virtAddress, data)),
                  done, status, Now())
    {
      hide CopyPlan, AppendPlan, Ran, Issued, Exec, Survivors, StoreOf, GoodTable, Burn, ReadPage, WritePage,
           FirstBlank;
      ghost var start, now, issued := Now(), Now(), [];
      ghost var r, tail := Record(virtAddress, data), PromotePlan(v.Other());
      ghost var plan, first := FillPlan(now.flash, table, v, r), AppendPlan(now.flash, r);
      ghost var copy := CopyPlan(Exec(now.flash, first.ops),
            Survivors(table, 0, StoreOf(now.flash.At(v)), virtAddress));
      Begin(verdict, start, plan);
      if TransferSides(now.flash, v) {
        AppendBesides(now.flash, v, r);
      }
      status, done := VerifyPageFullWriteVariable(virtAddress, data);
      Sequel(verdict, start, plan, issued, now, first, copy.Then(tail), done, status, Now());
      if status != FLASH_COMPLETE {
        return status, |issued| + done;
      }
      issued, now := issued + first.ops, Now();
      status, done := TransferOthers(v, virtAddress);
      Sequel(verdict, start, plan, issued, now, copy, tail, done, status, Now());
      if status != FLASH_COMPLETE {
        return status, |issued| + done;
      }
      issued, now := issued + copy.ops, Now();
      status, done := EraseAndValidate(v.Other());
      Sequel(verdict, start, plan, issued, now, tail, All([]), done, status, Now());
      if status == FLASH_COMPLETE {
        RanAll(verdict, start, plan, issued + tail.ops, Now());
      }
      return status, |issued| + done;
    }

    /** The block that both copying loops share: one variable, if it has a value. */
    method CopyVariable(v: PageId, varIdx: nat, ghost start: Moment, ghost plan: Plan, ghost issued: seq<Primitive>,
                        ghost skip: HalfWord)
      returns (status: int, ghost done: nat, ghost next: seq<Primitive>)
      requires Valid() && CopySides(Content(), v) && varIdx < |table| && table[varIdx] != skip
      requires Issued(verdict, start, issued, Now())
      requires plan == All(issued).Then(CopyPlan(Content(), Survivors(table, varIdx, StoreOf(Content().At(v)), skip)))
      modifies page0, page1, `clock, `dataVar
      ensures Valid()
      ensures status != FLASH_COMPLETE ==> Ran(verdict, start, plan, done, status, Now())
      ensures status == FLASH_COMPLETE ==>
                && CopySides(Content(), v) && StoreOf(Content().At(v)) == StoreOf(old(Content()).At(v))
                && var before, after := TagAt(old(Content()).At(v.Other()), 1), TagAt(Content().At(v.Other()), 1);
                && (after == before || (before == ERASED && after == table[varIdx]))
                && Issued(verdict, start, next, Now())
                && plan == All(next).Then(CopyPlan(Content(),
                                                   Survivors(table, varIdx + 1, StoreOf(Content().At(v)), skip)))
    {
      hide CopyPlan, AppendPlan, Ran, Issued, StoreUpTo, Exec, TagAt;
      ghost var now, m := Now(), StoreOf(Content().At(v));
      ghost var rs := Survivors(table, varIdx, m, skip);
      var readStatus := ReadVariable(table[varIdx]);
      assert Now() == now;
      if readStatus != NotFound {
        assert rs[0] == Record(table[varIdx], dataVar) && rs[1..] == Survivors(table, varIdx + 1, m, skip);
        status, done := VerifyPageFullWriteVariable(table[varIdx], dataVar);
        CopyOne(verdict, start, plan, issued, now, v, rs, done, status, Now());
        done, next := |issued| + done, issued + AppendPlan(now.flash, rs[0]).ops;
      } else {
        status, done, next := FLASH_COMPLETE, 0, issued;
      }
    }

    /** The loop of EE_PageTransfer: copies every variable but the one just written. */
    method TransferOthers(v: PageId, virtAddress: HalfWord) returns (status: int, ghost done: nat)
      requires Valid() && CopySides(Content(), v)
      modifies page0, page1, `clock, `dataVar
      ensures Valid()
      ensures Ran(verdict, old(Now()),
                  CopyPlan(old(Content()), Survivors(table, 0, StoreOf(old(Content()).At(v)), virtAddress)),
                  done, status, Now())
    {
      hide CopyPlan, AppendPlan, Ran, Issued, Exec, StoreUpTo;
      ghost var start, issued := Now(), [];
      ghost var m := StoreOf(Content().At(v));
      ghost var plan := CopyPlan(Content(), Survivors(table, 0, m, virtAddress));
      Begin(verdict, start, plan);
      for varIdx := 0 to |table|
        invariant Valid() && Issued(verdict, start, issued, Now())
        invariant CopySides(Content(), v) && StoreOf(Content().At(v)) == m
        invariant plan == All(issued).Then(CopyPlan(Content(), Survivors(table, varIdx, m, virtAddress)))
      {
        if table[varIdx] != virtAddress {
          status, done, issued := CopyVariable(v, varIdx, start, plan, issued, virtAddress);
          if status != FLASH_COMPLETE {
            return;
          }
        }
      }
      CopyEnd(verdict, start, plan, issued, Now());
      return FLASH_COMPLETE, |issued|;
    }

    /** Erases the page beside `w` and then marks `w` valid: how EE_PageTransfer ends, and what
        EE_Init does when it finds `w` receiving and the other page already erased. */
    method EraseAndValidate(w: PageId) returns (status: int, ghost done: nat)
      requires Valid()
      modifies page0, page1, `clock
      ensures Valid()
      ensures Ran(verdict, old(Now()), PromotePlan(w), done, status, Now())
    {
      ghost var start, now, issued := Now(), Now(), [];
      status := EraseSector(w.Other());
      Progress(verdict, start, PromotePlan(w), issued, now, Erase(w.Other()), status, Now());
      if status != FLASH_COMPLETE {
        return status, |issued|;
      }
      issued, now := issued + [Erase(w.Other())], Now();
      status := ProgramHalfWord(w, 0, VALID_PAGE);
      Progress(verdict, start, PromotePlan(w), issued, now, Program(w, 0, VALID_PAGE), status, Now());
      if status != FLASH_COMPLETE {
        return status, |issued|;
      }
      issued, now := issued + [Program(w, 0, VALID_PAGE)], Now();
      RanAll(verdict, start, PromotePlan(w), issued, Now());
      return FLASH_COMPLETE, |issued|;
    }

    /** The part of EE_Init that completes a transfer from page `v` to the other page. */
    method ResumeTransfer(v: PageId) returns (status: int, ghost done: nat)
      requires Valid() && CopySides(Content(), v)
      modifies page0, page1, `clock, `dataVar
      ensures Valid()
      ensures Ran(verdict, old(Now()), ResumePlan(old(Content()), table, v), done, status, Now())
    {
      hide CopyPlan, AppendPlan, Ran, Issued, Survivors, StoreOf;
      ghost var start, now, issued := Now(), Now(), [];
      var w := v.Other();
      ghost var f, mark, tail := Content(), Program(w, 0, VALID_PAGE), All([Program(w, 0, VALID_PAGE), Erase(v)]);
      ghost var plan := ResumePlan(f, table, v);
      ghost var copy := CopyPlan(f, Survivors(table, 0, StoreOf(f.At(v)), TagAt(f.At(w), 1)));
      Begin(verdict, start, plan);
      status, done := RecoverOthers(v);
      Sequel(verdict, start, plan, issued, now, copy, tail, done, status, Now());
      if status != FLASH_COMPLETE {
        return status, |issued| + done;
      }
      issued, now := issued + copy.ops, Now();
      status := ProgramHalfWord(w, 0, VALID_PAGE);
      Progress(verdict, start, plan, issued, now, mark, status, Now());
      if status != FLASH_COMPLETE {
        return status, |issued|;
      }
      issued, now := issued + [mark], Now();
      status := EraseSector(v);
      Progress(verdict, start, plan, issued, now, Erase(v), status, Now());
      if status != FLASH_COMPLETE {
        return status, |issued|;
      }
      issued, now := issued + [Erase(v)], Now();
      RanAll(verdict, start, plan, issued, Now());
      return FLASH_COMPLETE, |issued|;
    }

    /** The loop of EE_Init: copies every variable but the one in record 1 of the receiving page. */
    method RecoverOthers(v: PageId) returns (status: int, ghost done: nat)
      requires Valid() && CopySides(Content(), v)
      modifies page0, page1, `clock, `dataVar
      ensures Valid()
      ensures Ran(verdict, old(Now()),
                  CopyPlan(old(Content()), Survivors(table, 0, StoreOf(old(Content()).At(v)),
                                      TagAt(old(Content()).At(v.Other()), 1))),
                  done, status, Now())
    {
      hide CopyPlan, AppendPlan, Ran, Issued, Exec, StoreUpTo;
      ghost var start, issued := Now(), [];
      ghost var m, skip := StoreOf(Content().At(v)), TagAt(Content().At(v.Other()), 1);
      ghost var plan := CopyPlan(Content(), Survivors(table, 0, m, skip));
      Begin(verdict, start, plan);
      var receiving := if v.Page1? then page0 else page1;
      var x := -1;
      for varIdx := 0 to |table|
        invariant Valid() && Issued(verdict, start, issued, Now())
        invariant CopySides(Content(), v) && StoreOf(Content().At(v)) == m
        invariant x < varIdx
        invariant receiving[3] == skip || (skip == ERASED && receiving[3] in table[..varIdx])
        invariant plan == All(issued).Then(CopyPlan(Content(), Survivors(table, varIdx, m, skip)))
      {
        if receiving[3] == table[varIdx] {
          x := varIdx;
        }
        assert x == varIdx <==> table[varIdx] == skip;
        if varIdx != x {
          assert TagAt(Content().At(v.Other()), 1) == receiving[3];
          status, done, issued := CopyVariable(v, varIdx, start, plan, issued, skip);
          if status != FLASH_COMPLETE {
            return;
          }
          assert TagAt(Content().At(v.Other()), 1) == receiving[3];
        }
      }
      CopyEnd(verdict, start, plan, issued, Now());
      return FLASH_COMPLETE, |issued|;
    }

    /** The part of EE_Init for a page that is already valid: erases the other one. */
    method Tidy(p: PageId) returns (status: int, ghost done: nat)
      requires Valid()
      modifies page0, page1, `clock
      ensures Valid()
      ensures Ran(verdict, old(Now()), All([Erase(p)]), done, status, Now())
    {
      ghost var start, now, issued := Now(), Now(), [];
      status := EraseSector(p);
      Progress(verdict, start, All([Erase(p)]), issued, now, Erase(p), status, Now());
      if status != FLASH_COMPLETE {
        return status, |issued|;
      }
      issued, now := issued + [Erase(p)], Now();
      RanAll(verdict, start, All([Erase(p)]), issued, Now());
      return FLASH_COMPLETE, |issued|;
    }

    /** EE_Init */
    method Init() returns (status: int, ghost done: nat)
      requires Valid()
      modifies page0, page1, `clock, `dataVar
      ensures Valid()
      ensures Ran(verdict, old(Now()), InitPlan(old(Content()), table), done, status, Now())
    {
      hide Ran, ResumePlan, PromotePlan, GoodTable, Exec;
      var pageStatus0, pageStatus1 := page0[0], page1[0];
      if pageStatus0 == ERASED {
        if pageStatus1 == VALID_PAGE {
          status, done := Tidy(Page0);
        } else if pageStatus1 == RECEIVE_DATA {
          status, done := EraseAndValidate(Page1);
        } else {
          status, done := Format();
        }
      } else if pageStatus0 == RECEIVE_DATA {
        if pageStatus1 == VALID_PAGE {
          status, done := ResumeTransfer(Page1);
        } else if pageStatus1 == ERASED {
          status, done := EraseAndValidate(Page0);
        } else {
          status, done := Format();
        }
      } else if pageStatus0 == VALID_PAGE {
        if pageStatus1 == VALID_PAGE {
          status, done := Format();
        } else if pageStatus1 == ERASED {
          status, done := Tidy(Page1);
        } else {
          status, done := ResumeTransfer(Page0);
        }
      } else {
        status, done := Format();
      }
    }
  }
}
